/** The substitution and assembly callback: every colour owned by a
    requested variable is replaced by the variable's name throughout the
    reduced stylesheet, then the utility scripts and one declaration line
    per variable are put in front. */
module Assembly {
  import opened Wrappers
  import opened Strings
  import opened Assoc
  import opened LessVars
  import opened ColorMappings
  import opened Palette

  /** One turn of the loop over `Object.keys(cTn)`: when the owner of the
      colour is a requested variable, every occurrence of the colour
      becomes the owner's name. */
  function SubstituteStep(css: string, entry: (string, string), variables: Table): (r: string)
    ensures !HasKey(variables, entry.1) ==> r == css
    ensures |entry.0| > 0 && !Contains(css, entry.0) ==> r == css
    ensures HasKey(variables, entry.1) && |entry.0| > 0 ==> r == Join(Split(css, entry.0), entry.1)
  {
    if !HasKey(variables, entry.1) then css
    else if |entry.0| == 0 then ReplaceAll(css, entry.0, entry.1)
    else
      ReplaceAllIsSplitJoin(css, entry.0, entry.1);
      assert !Contains(css, entry.0) ==> ReplaceAll(css, entry.0, entry.1) == css by {
        if !Contains(css, entry.0) { ReplaceAllAbsent(css, entry.0, entry.1); }
      }
      ReplaceAll(css, entry.0, entry.1)
  }

  /** Where a substitution happens, the text is cut at every occurrence of
      the colour into pieces free of it, and the name is put between the
      pieces: no occurrence is missed and nothing else changes. */
  lemma {:induction false} SubstituteStepReplacesAll(css: string, entry: (string, string), variables: Table)
    requires HasKey(variables, entry.1) && |entry.0| > 0
    ensures var parts := Split(css, entry.0);
            && Join(parts, entry.0) == css
            && (forall i :: 0 <= i < |parts| ==> !Contains(parts[i], entry.0))
            && SubstituteStep(css, entry, variables) == Join(parts, entry.1)
  {
    SplitJoin(css, entry.0);
    SplitPartsAvoidSep(css, entry.0);
  }

  /** The whole loop, in the key order of `cTn`. */
  function Substitute(css: string, cTn: Table, variables: Table): string
    decreases |cTn|
  {
    if |cTn| == 0 then css
    else SubstituteStep(Substitute(css, cTn[..|cTn| - 1], variables), cTn[|cTn| - 1], variables)
  }

  /** When no colour is owned by a requested variable, the stylesheet is
      left as it is. */
  lemma {:induction false} SubstituteNothingRequested(css: string, cTn: Table, variables: Table)
    requires forall i :: 0 <= i < |cTn| ==> !HasKey(variables, cTn[i].1)
    ensures Substitute(css, cTn, variables) == css
    decreases |cTn|
  {
    if |cTn| > 0 {
      SubstituteNothingRequested(css, cTn[..|cTn| - 1], variables);
    }
  }

  /** Entry `i` of `cTn` is substituted: its owner is a requested variable. */
  predicate Requested(cTn: Table, variables: Table, i: int) {
    0 <= i < |cTn| && HasKey(variables, cTn[i].1)
  }

  /** Requested colours and names are non-empty, and no character of a
      requested name occurs in a requested colour, so that putting a name
      in never completes an occurrence of a colour. */
  predicate Separated(cTn: Table, variables: Table) {
    forall i, j :: 0 <= i < |cTn| && 0 <= j < |cTn| && Requested(cTn, variables, i) && Requested(cTn, variables, j) ==>
      && |cTn[i].0| > 0 && |cTn[j].1| > 0
      && forall k :: 0 <= k < |cTn[j].1| ==> cTn[j].1[k] !in cTn[i].0
  }

  /** Substitution is complete: no colour owned by a requested variable
      is left in the stylesheet. */
  lemma {:induction false} SubstituteComplete(css: string, cTn: Table, variables: Table)
    requires Separated(cTn, variables)
    ensures forall i :: Requested(cTn, variables, i) ==> !Contains(Substitute(css, cTn, variables), cTn[i].0)
    decreases |cTn|
  {
    if |cTn| > 0 {
      var m := |cTn| - 1;
      var init, e := cTn[..m], cTn[m];
      assert forall i :: Requested(init, variables, i) ==> Requested(cTn, variables, i) && init[i] == cTn[i];
      SubstituteComplete(css, init, variables);
      var t := Substitute(css, init, variables);
      if HasKey(variables, e.1) {
        forall i | Requested(cTn, variables, i)
          ensures !Contains(SubstituteStep(t, e, variables), cTn[i].0)
        {
          assert Requested(cTn, variables, m);
          if i < m {
            assert Requested(init, variables, i);
          }
          StepKeepsOut(t, e, variables, cTn[i].0);
        }
      }
    }
  }

  /** One substitution leaves out its own colour and brings back no colour
      the text was already free of. */
  lemma {:induction false} StepKeepsOut(css: string, entry: (string, string), variables: Table, p: string)
    requires HasKey(variables, entry.1) && |entry.0| > 0 && |entry.1| > 0 && |p| > 0
    requires forall k :: 0 <= k < |entry.1| ==> entry.1[k] !in p
    requires p == entry.0 || !Contains(css, p)
    ensures !Contains(SubstituteStep(css, entry, variables), p)
  {
    if p == entry.0 {
      SplitPartsAvoidSep(css, entry.0);
    } else {
      SplitPartsAvoid(css, entry.0, p);
    }
    JoinAvoids(Split(css, entry.0), entry.1, p);
  }

  /** The declaration line of one variable. */
  function DeclLine(entry: (string, string)): string {
    entry.0 + ": " + entry.1 + ";\n"
  }

  /** The declaration lines of a list of variables, in list order. */
  function DeclBlock(vars: Table): string
    decreases |vars|
  {
    if |vars| == 0 then "" else DeclLine(vars[0]) + DeclBlock(vars[1..])
  }

  function Reverse(vars: Table): (r: Table)
    ensures |r| == |vars| && forall i :: 0 <= i < |vars| ==> r[i] == vars[|vars| - 1 - i]
  {
    seq(|vars|, i requires 0 <= i < |vars| => vars[|vars| - 1 - i])
  }

  /** The assembly: the scripts and a newline go in front of the
      stylesheet, then each variable's declaration line goes in front in
      turn, so that the last variable's line comes first. */
  function Assemble(css: string, variables: Table, scripts: string): (r: string)
    ensures r == DeclBlock(Reverse(variables)) + scripts + "\n" + css
    decreases |variables|
  {
    if |variables| == 0 then scripts + "\n" + css
    else
      var init := variables[..|variables| - 1];
      var prev := Assemble(css, init, scripts);
      var rev := Reverse(variables);
      assert rev == [variables[|variables| - 1]] + Reverse(init);
      assert rev[1..] == Reverse(init);
      DeclLine(variables[|variables| - 1]) + prev
  }

  /** The output holds one declaration line for every variable. */
  lemma {:induction false} AssembleDeclaresAll(css: string, variables: Table, scripts: string, i: int)
    requires 0 <= i < |variables|
    ensures Contains(Assemble(css, variables, scripts), DeclLine(variables[i]))
  {
    var rev := Reverse(variables);
    var j := |variables| - 1 - i;
    DeclBlockSplit(rev, j);
    var tail := DeclBlock(rev[j + 1..]) + scripts + "\n" + css;
    assert Assemble(css, variables, scripts) == DeclBlock(rev[..j]) + DeclLine(rev[j]) + tail;
    ContainsMiddle(DeclBlock(rev[..j]), DeclLine(rev[j]), tail);
  }

  /** The block of a list is the block of its first `j` entries, the line
      of entry `j`, and the block of the rest. */
  lemma {:induction false} DeclBlockSplit(vars: Table, j: int)
    requires 0 <= j < |vars|
    ensures DeclBlock(vars) == DeclBlock(vars[..j]) + DeclLine(vars[j]) + DeclBlock(vars[j + 1..])
    decreases j
  {
    if j > 0 {
      DeclBlockSplit(vars[1..], j - 1);
      assert vars[1..][..j - 1] == vars[1..j];
      assert vars[1..][j - 1] == vars[j];
      assert vars[1..][j..] == vars[j + 1..];
      assert DeclBlock(vars[..j]) == DeclLine(vars[0]) + DeclBlock(vars[1..j]) by {
        assert vars[..j][1..] == vars[1..j];
      }
    }
  }

  /** The whole generator: variables parsed from the theme file, the colour
      tables built from antd's colour files, reconciled with the probe
      compile's matches, substituted into the reduced stylesheet and
      assembled. `None` when the raw colour table aborts the run. */
  function GenerateTheme(themeText: string, colorsText: string, defaultText: string, scan: Scanner,
                         probe: seq<(string, string)>, reducedCss: string, scripts: string): (r: Option<string>)
    ensures r.Some? <==> RawColors(colorsText, scan).Some?
    ensures r.Some? ==> StartsWith(r.value, DeclBlock(Reverse(GetLessVars(themeText))) + scripts + "\n")
  {
    var variables := GetLessVars(themeText);
    match GenerateColorMappings(colorsText, defaultText, variables, scan)
    case None => None
    case Some(g) =>
      var mappings := ReplacePrimaryColors(g, probe);
      var body := Substitute(reducedCss, mappings.cTn, variables);
      var out := Assemble(body, variables, scripts);
      assert out == (DeclBlock(Reverse(variables)) + scripts + "\n") + body;
      Some(out)
  }
  /** The documented example: a theme that sets `@primary-color` to
      `#1890ff`, whose default theme declares the same variable, and whose
      probe compile reports the same colour for the class `primary-color`,
      turns `.btn { color: #1890ff; }` into a rule on the variable, headed
      by the variable's declaration and the scripts. */
  lemma {:induction false} PrimaryColorScenario(raw: Table, scan: Scanner, scripts: string,
                                                cls: string, name: string, color: string, line: string, css: string)
    requires cls == "primary-color" && name == "@" + cls && color == "#1890ff"
    requires line == name + ": " + color + ";" && css == ".btn { color: " + color + "; }"
    requires scan(line) == Some((name, color)) && !HasKey(raw, color)
    ensures var variables := [(name, color)];
            var g := ThemeFold(Empty, [line], raw, variables, scan);
            var mappings := ReplacePrimaryColors(g, [(cls, color)]);
            Assemble(Substitute(css, mappings.cTn, variables), variables, scripts)
              == name + ": " + color + ";\n" + scripts + "\n" + (".btn { color: " + name + "; }")
  {
    var variables := [(name, color)];
    var g := ThemeFold(Empty, [line], raw, variables, scan);
    ScenarioTables(raw, scan, line, name, color);
    var mappings := ReplacePrimaryColors(g, [(cls, color)]);
    ScenarioProbe(g, cls, name, color);
    assert mappings.cTn == [(color, name)];
    var body := ".btn { color: " + name + "; }";
    ScenarioSubstitute(css, color, name, variables);
    assert Substitute(css, mappings.cTn, variables) == body;
    ScenarioAssemble(body, scripts, name, color);
  }

  lemma {:induction false} ScenarioTables(raw: Table, scan: Scanner, line: string, name: string, color: string)
    requires scan(line) == Some((name, color)) && !HasKey(raw, color) && |color| > 0 && color[0] == '#'
    ensures var g := ThemeFold(Empty, [line], raw, [(name, color)], scan);
            g.cTn == [(color, name)] && g.nTc == [(name, color)]
  {
  }

  lemma {:induction false} ScenarioProbe(g: ColorGraph, cls: string, name: string, color: string)
    requires cls == "primary-color" && name == "@" + cls && color == "#1890ff"
    requires g.cTn == [(color, name)] && g.nTc == [(name, color)]
    ensures ReplacePrimaryColors(g, [(cls, color)]).cTn == g.cTn
  {
    PrimaryColorOutsideRamp(cls, name);
    ReKeyWithoutRamp(g.cTn, g.nTc);
    assert IsColorLiteral(color) by {
      assert color[..1] == "#";
    }
    GetMatchesOne(cls, color);
    ReconcileOne(g.cTn, name, color);
    PutSingle(color, name);
  }

  /** `@primary-color` is neither a ramp shade nor a ramp class. */
  lemma {:induction false} PrimaryColorOutsideRamp(cls: string, name: string)
    requires cls == "primary-color" && name == "@" + cls
    ensures !IsRampName(name) && !IsRampClass(name)
  {
    assert name == "@primary-color";
    assert forall k :: 0 <= k < |name| ==> name[k] != 'd';
    if IsRampClass(name) {
      ContainsKeepsChars(name, "primary-d", 8);
    }
  }

  lemma {:induction false} ScenarioSubstitute(css: string, color: string, name: string, variables: Table)
    requires css == ".btn { color: " + color + "; }" && color == "#1890ff"
    requires variables == [(name, color)]
    ensures Substitute(css, [(color, name)], variables) == ".btn { color: " + name + "; }"
  {
    assert HasKey(variables, name);
    SubstituteOne(css, color, name, variables);
    ReplaceOnceAfter(".btn { color: ", color, "; }", name);
  }

  lemma {:induction false} ReplaceOnceAfter(pre: string, color: string, post: string, name: string)
    requires pre == ".btn { color: " && color == "#1890ff" && post == "; }"
    ensures ReplaceAll(pre + color + post, color, name) == pre + name + post
  {
    assert color[0] !in pre;
    ReplaceAllOnce(pre, color, post, name);
  }

  /** One requested owner: the substitution is the replacement of its colour. */
  lemma {:induction false} SubstituteOne(css: string, color: string, name: string, variables: Table)
    requires HasKey(variables, name)
    ensures Substitute(css, [(color, name)], variables) == ReplaceAll(css, color, name)
  {
  }

  lemma {:induction false} ScenarioAssemble(css: string, scripts: string, name: string, color: string)
    ensures Assemble(css, [(name, color)], scripts) == name + ": " + color + ";\n" + scripts + "\n" + css
  {
  }
}
