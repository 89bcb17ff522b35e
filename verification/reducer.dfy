/** The stylesheet reducer: a postcss plugin that strips a compiled
    stylesheet down to the rules and declarations that carry colour. */
module Reducer {
  import opened Strings
  import opened Seqs

  /** What a style rule holds: declarations, and comments between them. */
  datatype Item =
    | Declaration(prop: string, value: string)
    | ItemComment(text: string)

  /** A node of the compiled stylesheet. An at-rule (`@media`, `@keyframes`,
      ...) holds further nodes; a style rule holds declarations. */
  datatype Node =
    | AtRule(name: string, params: string, body: seq<Node>)
    | Rule(selector: string, items: seq<Item>)
    | Comment(text: string)

  /** Selector prefix of the demo swatches of the colour palette page. */
  const PalettePrefix: string := ".main-color .palatte-"

  /** The property names the reducer keeps: those mentioning a colour,
      a background, a border or a box shadow. */
  predicate IsColorProp(prop: string) {
    || Contains(prop, "color")
    || Contains(prop, "background")
    || Contains(prop, "border")
    || Contains(prop, "box-shadow")
  }

  predicate IsColorDecl(it: Item) {
    it.Declaration? && IsColorProp(it.prop)
  }

  /** What the declaration walk of a rule leaves in place: the colour
      declarations and every comment. */
  predicate SurvivesDeclWalk(it: Item) {
    it.ItemComment? || IsColorProp(it.prop)
  }

  predicate IsDeclaration(it: Item) {
    it.Declaration?
  }

  predicate IsNotAtRule(n: Node) {
    !n.AtRule?
  }

  predicate IsNotComment(n: Node) {
    !n.Comment?
  }

  /** The colour declarations of a rule, in order. */
  function ColorDecls(items: seq<Item>): seq<Item> {
    Filter(IsColorDecl, items)
  }

  /** First walk: every at-rule is removed, with everything inside it. */
  function DropAtRules(sheet: seq<Node>): seq<Node> {
    Filter(IsNotAtRule, sheet)
  }

  /** `cleanRule` on one node: a palette swatch rule goes; otherwise the
      non-colour declarations go, and the rule goes too when no colour
      declaration was kept. Other nodes are left alone. */
  function CleanRule(n: Node): seq<Node> {
    match n
    case Rule(sel, items) =>
      if StartsWith(sel, PalettePrefix) then []
      else if ColorDecls(items) == [] then []
      else [Rule(sel, Filter(SurvivesDeclWalk, items))]
    case _ => [n]
  }

  /** Second walk: `cleanRule` on every rule. */
  function CleanRules(sheet: seq<Node>): seq<Node>
    decreases |sheet|
  {
    if |sheet| == 0 then [] else CleanRule(sheet[0]) + CleanRules(sheet[1..])
  }

  /** Third walk: every comment is removed, inside rules as well. */
  function DropComments(sheet: seq<Node>): seq<Node>
    decreases |sheet|
  {
    if |sheet| == 0 then []
    else
      var head := match sheet[0]
        case Comment(_) => []
        case Rule(sel, items) => [Rule(sel, Filter(IsDeclaration, items))]
        case AtRule(_, _, _) => [sheet[0]];
      head + DropComments(sheet[1..])
  }

  /** The plugin: the three walks, in the order the plugin runs them. */
  function Reduce(sheet: seq<Node>): (r: seq<Node>)
    ensures Reduced(r)
  {
    var r := DropComments(CleanRules(DropAtRules(sheet)));
    ReduceMatchesOnePass(sheet);
    OnePassIsReduced(sheet);
    r
  }

  /** What a reduced stylesheet looks like: only style rules, none of them
      a palette swatch, each with at least one declaration and nothing but
      colour declarations. */
  predicate Reduced(sheet: seq<Node>) {
    forall i :: 0 <= i < |sheet| ==> ReducedRule(sheet[i])
  }

  predicate ReducedRule(n: Node) {
    && n.Rule?
    && !StartsWith(n.selector, PalettePrefix)
    && |n.items| > 0
    && forall j :: 0 <= j < |n.items| ==> IsColorDecl(n.items[j])
  }

  /** Reference definition in one pass: each node is looked at once, and a
      style rule survives, holding exactly its colour declarations, when it
      is no swatch and has a colour declaration. */
  function OnePass(sheet: seq<Node>): seq<Node>
    decreases |sheet|
  {
    if |sheet| == 0 then []
    else
      var head := match sheet[0]
        case Rule(sel, items) =>
          if !StartsWith(sel, PalettePrefix) && ColorDecls(items) != []
          then [Rule(sel, ColorDecls(items))] else []
        case _ => [];
      head + OnePass(sheet[1..])
  }

  /** Removing comments after the declaration walk leaves exactly the
      colour declarations. */
  lemma {:induction false} DeclWalkThenCommentWalk(items: seq<Item>)
    ensures Filter(IsDeclaration, Filter(SurvivesDeclWalk, items)) == ColorDecls(items)
    decreases |items|
  {
    if |items| > 0 {
      DeclWalkThenCommentWalk(items[1..]);
    }
  }

  /** The three walks of the plugin compute the one-pass reference. */
  lemma {:induction false} ReduceMatchesOnePass(sheet: seq<Node>)
    ensures DropComments(CleanRules(DropAtRules(sheet))) == OnePass(sheet)
    decreases |sheet|
  {
    if |sheet| > 0 {
      var n := sheet[0];
      var rest := sheet[1..];
      ReduceMatchesOnePass(rest);
      assert sheet == [n] + rest;
      FilterAppend(IsNotAtRule, [n], rest);
      var kept := DropAtRules([n]);
      assert CleanRules(kept + DropAtRules(rest)) == CleanRules(kept) + CleanRules(DropAtRules(rest)) by {
        CleanRulesAppend(kept, DropAtRules(rest));
      }
      DropCommentsAppend(CleanRules(kept), CleanRules(DropAtRules(rest)));
      if n.Rule? {
        DeclWalkThenCommentWalk(n.items);
        assert CleanRules(kept) == CleanRule(n);
      }
    }
  }

  lemma {:induction false} CleanRulesAppend(a: seq<Node>, b: seq<Node>)
    ensures CleanRules(a + b) == CleanRules(a) + CleanRules(b)
    decreases |a|
  {
    if |a| > 0 {
      assert (a + b)[1..] == a[1..] + b;
      CleanRulesAppend(a[1..], b);
    } else {
      assert a + b == b;
    }
  }

  lemma {:induction false} DropCommentsAppend(a: seq<Node>, b: seq<Node>)
    ensures DropComments(a + b) == DropComments(a) + DropComments(b)
    decreases |a|
  {
    if |a| > 0 {
      assert (a + b)[1..] == a[1..] + b;
      DropCommentsAppend(a[1..], b);
    } else {
      assert a + b == b;
    }
  }

  /** The one-pass reference leaves a reduced stylesheet. */
  lemma {:induction false} OnePassIsReduced(sheet: seq<Node>)
    ensures Reduced(OnePass(sheet))
    decreases |sheet|
  {
    if |sheet| > 0 {
      OnePassIsReduced(sheet[1..]);
    }
  }

  /** A reduced stylesheet passes through the one-pass reference unchanged. */
  lemma {:induction false} OnePassKeepsReduced(sheet: seq<Node>)
    requires Reduced(sheet)
    ensures OnePass(sheet) == sheet
    decreases |sheet|
  {
    if |sheet| > 0 {
      var n := sheet[0];
      FilterKeepsAll(IsColorDecl, n.items);
      assert ColorDecls(n.items) == n.items;
      assert n.items[0] in ColorDecls(n.items);
      OnePassKeepsReduced(sheet[1..]);
      assert sheet == [n] + sheet[1..];
    }
  }

  /** Reducing twice changes nothing more than reducing once. */
  lemma {:induction false} ReduceIdempotent(sheet: seq<Node>)
    ensures Reduce(Reduce(sheet)) == Reduce(sheet)
  {
    var r := Reduce(sheet);
    ReduceMatchesOnePass(r);
    OnePassKeepsReduced(r);
  }

  /** Every style rule that is no swatch and has a colour declaration
      survives, holding exactly its colour declarations in their order. */
  lemma {:induction false} ColorRuleSurvives(sheet: seq<Node>, i: int)
    requires 0 <= i < |sheet| && sheet[i].Rule?
    requires !StartsWith(sheet[i].selector, PalettePrefix)
    requires ColorDecls(sheet[i].items) != []
    ensures Rule(sheet[i].selector, ColorDecls(sheet[i].items)) in Reduce(sheet)
    decreases |sheet|
  {
    ReduceMatchesOnePass(sheet);
    OnePassSurvivor(sheet, i);
  }

  lemma {:induction false} OnePassSurvivor(sheet: seq<Node>, i: int)
    requires 0 <= i < |sheet| && sheet[i].Rule?
    requires !StartsWith(sheet[i].selector, PalettePrefix)
    requires ColorDecls(sheet[i].items) != []
    ensures Rule(sheet[i].selector, ColorDecls(sheet[i].items)) in OnePass(sheet)
    decreases |sheet|
  {
    if i > 0 {
      OnePassSurvivor(sheet[1..], i - 1);
    }
  }

  /** Every rule of the output comes from a style rule of the input that is
      no swatch, keeping that rule's selector and colour declarations. */
  lemma {:induction false} ReducedRuleHasSource(sheet: seq<Node>, n: Node)
    requires n in Reduce(sheet)
    ensures exists i :: 0 <= i < |sheet| && SourceOf(sheet[i], n)
  {
    ReduceMatchesOnePass(sheet);
    OnePassSource(sheet, n);
  }

  /** `src` is a non-swatch style rule that reduces to `n`. */
  predicate SourceOf(src: Node, n: Node) {
    && src.Rule? && n.Rule?
    && src.selector == n.selector
    && !StartsWith(src.selector, PalettePrefix)
    && n.items == ColorDecls(src.items)
  }

  lemma {:induction false} OnePassSource(sheet: seq<Node>, n: Node)
    requires n in OnePass(sheet)
    ensures exists i :: 0 <= i < |sheet| && SourceOf(sheet[i], n)
    decreases |sheet|
  {
    var m := sheet[0];
    if m.Rule? && !StartsWith(m.selector, PalettePrefix) && ColorDecls(m.items) != []
       && n == Rule(m.selector, ColorDecls(m.items)) {
      assert SourceOf(sheet[0], n);
    } else {
      OnePassSource(sheet[1..], n);
      var i :| 0 <= i < |sheet[1..]| && SourceOf(sheet[1..][i], n);
      assert SourceOf(sheet[i + 1], n);
    }
  }
}
