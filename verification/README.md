# antd live-theme generator, modelled in Dafny

`generate-theme.js` builds `public/color.less`, a LESS stylesheet that an
application can recompile in the browser to switch antd's colours at run
time. In order, it:

- compiles antd's full stylesheet;
- reduces the result to the rules that carry colour;
- works out which literal colour stands for which theme variable;
- puts the variable names back in place of the literals;
- puts the variable declarations and antd's colour-function scripts in front.

This project models that core as pure functions over immutable data and
proves what each step guarantees.

The modules follow the program's structure:

- `Reducer` is the postcss plugin `reducePlugin` with `cleanRule`. It has
  three walks over a stylesheet tree (at-rules, rules, comments). A
  one-pass reference definition is proved equal to it. The lemmas prove
  what a reduced sheet looks like, that reducing is idempotent, which
  rules survive and where each surviving rule comes from.
- `LessVars` is `getLessVars`. It models the global regular expression
  `/@(.*:[^;]*)/g` concretely:
  - greedy `.*` backs off to the last colon on the `@`'s line;
  - `[^;]*` runs to the next `;`;
  - the scan resumes at the end of a match, or one position further
    after a failed attempt.

  Then comes the `:\s*` split, quote removal, trim and the `:` join of
  the value. The lemmas prove that the last declaration of a name wins.
- `ColorMappings` is `generateColorMappings`:
  - the raw colour table, which aborts on a line its expression cannot
    match;
  - the theme fold, which skips such a line;
  - the interest filter, the raw-name lookup, the single alias hop with
    its truthiness test, and first-writer-wins.

  The lemmas prove that the two tables stay mutually consistent.
- `Palette` is the reconciliation in `replacePrimaryColors` and
  `getMatches`:
  - re-keying of the primary ramp;
  - last-literal-wins extraction of the probe's matches;
  - the ramp-class test and the overwrite of the colour's owner.
- `Assembly` is the final callback:
  - replace-all substitution of colours owned by requested variables;
  - the scripts, then one declaration line per variable in front, which
    leaves the variables in reverse order;
  - the whole pipeline `GenerateTheme`;
  - a worked example: `.btn { color: #1890ff; }` becomes
    `.btn { color: @primary-color; }`.
- `Assoc` models a JavaScript object used as a dictionary. It is an
  ordered association list: `Object.keys` gives insertion order, an
  assignment updates in place or appends, and `delete` removes the key.
  `Strings`, `Seqs` and `Wrappers` hold the string operations, a filter
  and `Option`.

Some behaviour of the code is not what a reader of the function names
would expect. The model follows the code:

- **Aliases are resolved by one hop only (line 112).** The hop looks only
  at variables the fold has already entered. A reference to a variable
  declared later, or one of no interest, stays as the reference text
  (`UnresolvedAliasKept`). A reference that does resolve yields a colour
  that already has an owner, so the line is skipped
  (`AliasHopAddsNothing`).
- **The ramp test is not a digit test.** `cls.match('primary-\d\d?')` is
  given a string literal in which `\d` is just `d`. The pattern is
  therefore `/primary-dd?/`, so `@primary-5` is not a ramp class and
  `@primary-dark` is (`RampTestIgnoresDigits`). Shade classes such as
  `@primary-5` take the non-ramp branch and overwrite the owner of their
  colour.
- **Missing `cTn` entries become `undefined`.** A ramp class with no
  `cTn` entry hands on `undefined` (line 156). It is modelled as the key
  `"undefined"`, which is what `undefined in variables` asks for.

## Model

| member | source | states |
|---|---|---|
| Reducer.Reduce | generate-theme.js:19-51 | the reduced sheet holds only style rules. None of them is a palette swatch (`.main-color .palatte-`). Each keeps at least one declaration, and every declaration names a colour, background, border or box-shadow |
| Reducer.ReduceMatchesOnePass | generate-theme.js:42-50 | the three walks (drop at-rules, clean rules, drop comments) equal the one-pass reference: each non-swatch rule with a colour declaration is kept with exactly its colour declarations |
| Reducer.DeclWalkThenCommentWalk | generate-theme.js:26-49 | the declaration walk followed by the comment walk leaves exactly the colour declarations of a rule, in order |
| Reducer.ReduceIdempotent | generate-theme.js:19-51 | reducing an already reduced sheet changes nothing |
| Reducer.ColorRuleSurvives | generate-theme.js:20-41 | every non-swatch rule with a colour declaration survives, holding exactly its colour declarations |
| Reducer.ReducedRuleHasSource | generate-theme.js:20-41 | every output rule comes from a non-swatch input rule with the same selector and that rule's colour declarations |
| Strings.Trim | generate-theme.js:198 | the result has no JavaScript white space at either end and is obtained by cutting white space off both ends |
| Strings.RemoveQuotes | generate-theme.js:198 | `replace(/['"]+/g, '')` equals the text filtered of its quote characters: every other character is kept, in order. So no quote is left, and quote-free text is unchanged |
| Strings.SplitJoin | generate-theme.js:94 | joining the pieces of `split(sep)` with `sep` gives the text back |
| Strings.SplitPartsAvoidSep | generate-theme.js:105 | no piece of `split(sep)` contains `sep` |
| Strings.SplitColon | generate-theme.js:197 | `split(/:\s*/)` yields at least one piece, and no piece holds a colon. The first piece is the text up to the first colon |
| Strings.SplitColonJoin | generate-theme.js:197-198 | where no colon is followed by white space, the pieces joined with `:` give the text back |
| Strings.SplitColonDropsSpace | generate-theme.js:197-198 | for every text, the pieces of `split(/:\s*/)` joined with `:` give the text with each run of white space directly after a colon taken out (`DropSpaceAfterColons`, a left-to-right definition of its own) |
| Strings.ReplaceAllIsSplitJoin | generate-theme.js:73 | a global replace of a non-empty literal cuts the text at every occurrence and joins the pieces with the replacement |
| Strings.ReplaceAllAbsent | generate-theme.js:73 | text in which the pattern does not occur is left as it is |
| Strings.ReplaceAllOnce | generate-theme.js:73 | a single occurrence, preceded by text that cannot start another and followed by text too short for one, is the only replacement |
| Assoc.Get | generate-theme.js:111 | a lookup finds a value exactly when the key is present, and finds the key's own pair |
| Assoc.Put | generate-theme.js:98-99 | after `m[k] = v`, `k` maps to `v` and every other key is unchanged. The key order is kept, or `k` is appended when new. Distinct keys stay distinct |
| Assoc.Remove | generate-theme.js:143 | after `delete m[k]`, `k` is absent and every other key is unchanged |
| Assoc.RemoveKeepsOrder | generate-theme.js:143 | after `delete m[k]` the keys are those of `m` other than `k`, in their old order |
| Assoc.FromPairs | generate-theme.js:196-199 | assigning pairs in order gives a table with distinct keys, holding exactly the assigned keys, in the order of each key's first assignment |
| Assoc.FromPairsLastWins | generate-theme.js:196-199 | a key's value is the value of its last assignment, in both directions |
| LessVars.MatchAt | generate-theme.js:194 | one attempt of `/@(.*:[^;]*)/` fails on anything but `@` or when the `@`'s line has no colon. A match takes the last colon on the `@`'s line and ends at the first `;` after it, or at the end of the text |
| LessVars.Scan | generate-theme.js:194 | every match of the global scan is an `@`, a colon on its line and no `;` after that colon. A text without `@` has no match |
| LessVars.ScanDeclaration | generate-theme.js:194 | a sheet starting `@n:v;`, with no colon later on that line, has `@n:v` as its first match, and the scan goes on from the `;` |
| LessVars.DeclarationParses | generate-theme.js:197-198 | `@n:v` with no further colon parses to the name `@n`, unquoted and trimmed, and the value `v` from its first non-blank character |
| LessVars.GetLessVarsOneDeclaration | generate-theme.js:191-202 | a sheet holding one such declaration and no other `@` declares exactly that variable with that value |
| LessVars.ParseVar | generate-theme.js:197-198 | the name is the text before the first colon, with its quotes removed and trimmed |
| LessVars.ParseVarValue | generate-theme.js:197-198 | the value of `name: rest` is `rest` from its first non-blank character, with the `:\s*` separators turned into `:`. It is exactly that text when no later colon is followed by white space |
| LessVars.GetLessVars | generate-theme.js:191-202 | the names are exactly the declared names, each once, in the order of their first declaration. A sheet without `@` declares nothing |
| LessVars.GetLessVarsLastWins | generate-theme.js:196-199 | a name maps to a value exactly when the last segment declaring that name declares that value |
| ColorMappings.ScanAll | generate-theme.js:94-102 | the fold over the raw colour lines fails exactly when one line does not match. Otherwise every line's match is kept, in order |
| ColorMappings.RawColors | generate-theme.js:93-102 | the raw table exists exactly when every declaration line of the colour file matches. Its names are distinct, and a name maps to a value exactly when the last matched line for that name carries that value |
| ColorMappings.RawLiteral | generate-theme.js:111 | a value that names a raw colour becomes that colour, and any other value is kept |
| ColorMappings.OneHop | generate-theme.js:112 | a reference to an entered name with a non-empty colour becomes that colour. A reference whose entry is missing or empty (falsy) is kept, as is anything not starting with `@` |
| ColorMappings.ThemeStep | generate-theme.js:107-122 | an unmatched line or a name of no interest changes nothing. For a kept name, a colour that already has an owner leaves both tables unchanged. Otherwise the colour is owned by the name and the name maps to the colour, and no other entry of either table changes. Consistency of the two tables and the interest filter are preserved |
| ColorMappings.InsertKeepsConsistent | generate-theme.js:113-115 | entering a colour that has no owner, with its name, keeps `cTn` and `nTc` mutually consistent |
| ColorMappings.ThemeFold | generate-theme.js:105-123 | over all lines, existing owners are kept and consistency and the interest filter are preserved |
| ColorMappings.GenerateColorMappings | generate-theme.js:90-125 | tables are produced exactly when the raw colour table is. They are then consistent and hold only requested or `@primary` names |
| ColorMappings.UnmatchedLineIgnored | generate-theme.js:108-122 | a line the expression cannot match leaves the fold as if the line were absent |
| ColorMappings.FirstWriterWins | generate-theme.js:113-114 | the first line to claim a colour stays its owner whatever lines follow |
| ColorMappings.AliasHopAddsNothing | generate-theme.js:111-113 | a line whose value resolves through the alias hop is skipped, because its colour already has an owner |
| ColorMappings.UnresolvedAliasKept | generate-theme.js:112-115 | a reference to a name not yet entered is not resolved. The reference text becomes a key of `cTn`, owned by the line's name |
| Palette.ReKey | generate-theme.js:140-147 | re-keying keeps `cTn`'s keys distinct |
| Palette.ReKeyMovesRamp | generate-theme.js:140-147 | every ramp name (`@primary-…` other than `@primary-color`) becomes a key mapping to its colour, and its colour is no longer a key. Every other key is unchanged |
| Palette.ReKeyWithoutRamp | generate-theme.js:140-141 | without ramp entries `cTn` is left as it is |
| Palette.GetMatches | generate-theme.js:170-179 | the matches have distinct `@`-prefixed keys and only `rgba…`/`#…` values |
| Palette.GetMatchesLastWins | generate-theme.js:173-176 | a class maps to a colour exactly when its last match with a literal colour has that colour |
| Palette.RampTestIgnoresDigits | generate-theme.js:155 | `@primary-5` fails the ramp test and `@primary-dark` passes it |
| Palette.ReconcileStepGet | generate-theme.js:155-161 | after one step the colour is owned by the class, or for a ramp class by the class's former `cTn` value. A ramp class loses its key, and every other key is unchanged |
| Palette.ReconcileOne | generate-theme.js:159-161 | a single non-ramp match makes its class the owner of its colour |
| Palette.ReconcileEffect | generate-theme.js:153-163 | after the whole loop each colour is owned as its last match decides, and no ramp class remains a key. Keys untouched by the matches keep their values |
| Palette.ReplacePrimaryColors | generate-theme.js:140-164 | `nTc` is unchanged and `cTn` keeps distinct keys. No matched class that the ramp test accepts is left as a key of `cTn` |
| Assembly.SubstituteStep | generate-theme.js:68-75 | a colour whose owner is not a requested variable, or that does not occur, leaves the text unchanged. Otherwise every occurrence is replaced by the owner's name |
| Assembly.SubstituteStepReplacesAll | generate-theme.js:72-73 | the substituted text is the original cut at every occurrence of the colour into colour-free pieces, joined with the owner's name |
| Assembly.SubstituteNothingRequested | generate-theme.js:68-75 | when no colour is owned by a requested variable the stylesheet is unchanged |
| Assembly.SubstituteComplete | generate-theme.js:68-75 | after the whole loop, no colour owned by a requested variable occurs in the stylesheet, provided requested colours and names are non-empty and no requested name shares a character with a requested colour |
| Assembly.SubstituteOne | generate-theme.js:68-75 | a one-entry table owned by a requested variable replaces that colour throughout |
| Assembly.Assemble | generate-theme.js:77-80 | the output is the declaration lines of the variables in reverse order, then the scripts, a newline and the stylesheet |
| Assembly.AssembleDeclaresAll | generate-theme.js:78-80 | the output contains the line `name: value;` of every variable |
| Assembly.GenerateTheme | generate-theme.js:60-83 | output is produced exactly when the raw colour table can be built, and it starts with the reversed declaration block and the scripts |
| Assembly.PrimaryColorScenario | generate-theme.js:66-80 | take the requested variable `@primary-color: #1890ff`, a default-theme line declaring it, and a probe match of `primary-color` with `#1890ff`. Then `.btn { color: #1890ff; }` becomes `@primary-color: #1890ff;`, the scripts, and `.btn { color: @primary-color; }` |

## Left out

- File reading, globbing and writing `public/color.less` (lines 9-18, 52-58, 81, 91-93, 103, 192) are left out. The texts they produce (theme file, colour file, default theme, scripts) are parameters.
- The `less` compiler and the postcss parser and serialiser (lines 60-64, 149, 181-189) are left out: they are foreign code. The reducer works on an already parsed tree; the reduced stylesheet's text and the probe compile's matches are parameters.
- Building the probe stylesheet and stripping its comments (lines 129-139, 145, 148, 150) are left out. Only the resulting `(class, colour)` matches enter the model.
- The regular expressions at lines 97, 109 and 151 are abstracted. The declaration-line expression is a `Scanner` parameter (the same one for both folds), and the probe expression's matches are an input.
- The regex escaping at line 72 only escapes the first `(` and the first `)`, and leaves `.` as "any character". The model treats the colour as a literal pattern. A colour with several parentheses or with a `.` would behave differently in the source.
- JavaScript `in` also finds keys on the prototype chain (`constructor`, `toString`), and `Object.keys` lists integer-like keys first. The dictionary model has plain insertion order and own keys only.
- The error paths of the Promise chain are left out: a failed compile, the `catch` handlers, and the reference to the undefined `mappings` at line 187. The model covers the successful run, plus the abort of the raw colour fold.
- Dead code is not modelled: the raw fold's `cTn` table (line 98), `prev[color]` at line 115 (always undefined, so the branch yields the colour), the reassignment of `content` at line 104, and the logging at lines 71, 85, 120 and 166.
- The reducer's tree has no rules nested inside rules, which compiled CSS does not produce. Comments inside at-rules are not walked, because every at-rule is removed before the comment walk.
- Palette.ReKeyMovesRamp: requires that `nTc` has distinct names and that no ramp colour is itself a ramp name. Without these, a later delete can remove an earlier ramp name's new key, and the source then promises nothing.
- Assembly.SubstituteComplete: requires that no requested name shares a character with a requested colour. Without this, a name put in for a later colour can, together with the text next to it, form an occurrence of a colour substituted earlier, and that occurrence stays in the output.
- Assembly.GenerateTheme: states only the shape of the output's head and when it exists. What the body holds is stated step by step by the substitution and assembly lemmas.
