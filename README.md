# fix_repo.py in Dafny

`fix_repo.py` is a one-off migration script for TypeScript repository files. It
turns database calls written as `client.execute(...)` into tagged templates
written as `` client`...` ``, and rewrites two SQLite idioms into PostgreSQL ones.
This project models the string transformations at the heart of the script and
proves properties about them:

- **Call shapes** (`call_shapes.dfy`, module `CallShapes`). `repl_simple` and
  `repl_no_args` put the captured SQL text verbatim between the backticks of
  `` client`...` ``. The quote character that was captured makes no difference,
  and the template adds no `client.execute(` of its own.
- **Argument parsing** (`arguments.dfy`, module `Arguments`). This is the
  `args_str.strip('[] \n')`, `re.split(r',\s*', ...)` and strip-and-filter
  pipeline of `repl_complex`. Every argument comes out non-empty, trimmed and
  free of commas. A list written out inside brackets parses back to exactly
  its arguments, in order. Any whitespace may stand before and after each
  comma, after `[` and before `]`, and a trailing comma is allowed, so
  `[a,b]`, `[ a , b ]` and the multi-line `[\n  a,\n  b,\n]` all give `a`, `b`.
  A blank list gives no arguments. The split is not bracket-aware: a comma
  inside brackets still separates two arguments.
- **Placeholder substitution** (`placeholders.dfy`, module `Placeholders`).
  - The loop of `repl_complex` replaces the first remaining `?` once per
    argument. It is modelled as a method with a `while` loop, proved against a
    function (`SubstituteAll`).
  - `SubstituteAll` is compared with an independent reference definition,
    positional binding (`Bind`). The two agree when no argument holds a `?`.
  - With k arguments and n placeholders, binding leaves n − min(k, n)
    placeholders, and extra arguments are ignored.
  - An argument that holds a `?`, such as `user?.id`, captures the next
    argument. The loop then differs from positional binding.
- **Dialect rewrites** (`pattern.dfy`, module `Patterns`, and `dialect.dfy`,
  module `Dialect`).
  - The case-insensitive `re.sub` of `=\s*\?\s*COLLATE\s+NOCASE` is modelled as
    a chain of tokens matched greedily. Because every whitespace run in it is
    followed by a token that cannot be whitespace, the greedy match is exactly
    the regular-expression match (`MatchIsRegexMatch`).
  - `re.sub` is a left-to-right scan. Once it has run, no match of the pattern
    is left anywhere, and a second run changes nothing.
  - The two literal `str.replace` calls that follow are modelled as replace-all
    over strings.

Four facts about the rewrites on lines 51–61 are proved here:

- Line 54 never fires. Its search text contains a match of line 51, and after
  line 51 no match is left (`Dialect.Line54IsNoOp`). The `json_extract` comparison
  reaches `power->>0 ILIKE ?` through line 58 instead.
- The `COLLATE NOCASE` rewrite and the `json_extract` rewrites overlap and do
  not commute. Applied in the other order, they give a different result
  (`Dialect.Lines51And54DoNotCommute`).
- Lines 51–61 are idempotent: a second run on their output changes nothing
  (`Dialect.DialectIdempotent`). After the first run no match of line 51 is
  left, since `power->>0 ILIKE ?` holds no `=` and its `p` stops every token,
  and no `json_extract(power, '$[0]') ILIKE ?` is left for line 58.
- Line 51 removes only `= ? COLLATE NOCASE` comparisons. Every match holds a
  `?`, so text without `?` is never changed, and any other `COLLATE NOCASE`
  stays, as in `ORDER BY name COLLATE NOCASE` (`Dialect.QuestionFreeUnchanged`).

The order of the passes matters (`driver.dfy`, module `Driver`). The script
rewrites bare-string calls (line 17) and `{ sql, args }` calls (line 40) first,
then applies the dialect rewrites (lines 51–61), and rewrites `{ sql }` calls
(line 68) last. A `{ sql, args }` call whose arguments hold no `?` and cover
all its placeholders has no `?` left by then, so line 51 no longer rewrites its
`COLLATE NOCASE` (`Driver.BoundCallSkipsCollate`). The SQL of a bare-string
call keeps its `?` in the template, and line 51 still rewrites it
(`Driver.SimpleCallGetsIlike`). A `{ sql }` call is not yet converted when
line 51 runs, so line 51 works on its original text.

`text.dfy` (module `Text`) holds the Python string primitives the script uses:

- `str.isspace` and `\s`, which accept the same characters;
- `strip`, `lstrip` and `rstrip`, with and without a character set;
- substring containment and counting;
- `str.replace` of all occurrences.

## Model

| member | source | states |
|---|---|---|
| CallShapes.ReplSimple | fix_repo.py:8-15 | both branches give the same template: the literal between the backticks of `` client`...` ``, whatever quote was captured |
| CallShapes.ReplNoArgs | fix_repo.py:64-66 | a `{ sql: ... }` call without arguments gives the same template as a bare-string call |
| CallShapes.TaggedTemplate | fix_repo.py:34 | the result is `` client` ``, then the SQL text unchanged, then a closing backtick; the length grows by exactly 8 |
| CallShapes.TemplateAddsNoExecuteCall | fix_repo.py:34 | the template holds `client.execute(` if and only if the captured SQL already did |
| Text.Strip | fix_repo.py:25-26 | `strip` never lengthens the text, and what it returns neither starts nor ends with a stripped character |
| Text.StripNothing | fix_repo.py:25-26 | text holding no stripped character comes back whole |
| Text.StripExactly | fix_repo.py:25-26 | `strip` removes exactly the outer runs of stripped characters and keeps the core |
| Arguments.SplitAtCommas | fix_repo.py:25 | `re.split` always gives at least one piece, and the first piece is where the text starts |
| Arguments.SplitPieces | fix_repo.py:25 | no piece of `re.split(r',\s*')` holds a comma; every piece after the first is empty or starts with a non-whitespace character |
| Arguments.StrippedNonEmpty | fix_repo.py:26 | the comprehension keeps at most as many pieces as it is given, and every piece it keeps is non-empty with no whitespace at either end |
| Arguments.ParseArgs | fix_repo.py:25-26 | every parsed argument is non-empty, has no leading or trailing whitespace, and holds no comma |
| Arguments.StrippedArguments | fix_repo.py:26 | stripping and filtering well-formed arguments drops none of them and changes none |
| Arguments.PiecesOfLayout | fix_repo.py:25-26 | arguments written one after another with whitespace, a comma and whitespace between each two split and filter back to exactly those arguments, in order, whatever whitespace comes before them and whatever blank closing text follows |
| Arguments.ParseWrittenList | fix_repo.py:25-26 | a bracketed list with any whitespace around each comma, after `[` and before `]`, and an optional trailing comma, parses back to exactly the arguments written, in order |
| Arguments.MultiLineList | fix_repo.py:25-26 | example: the multi-line list `[\n  name,\n  type,\n]` with its trailing comma gives `name` and `type` |
| Arguments.BlankListHasNoArguments | fix_repo.py:25-26 | `[]`, or brackets holding only whitespace, give no arguments |
| Arguments.SplitIgnoresBrackets | fix_repo.py:25 | example: the split is unaware of brackets, so `[f(a, b)]` gives the two arguments `f(a` and `b)` |
| Placeholders.Interpolation | fix_repo.py:32 | `${arg}` holds a `?` exactly when the argument does |
| Placeholders.ReplaceFirst | fix_repo.py:32 | `replace('?', rep, 1)` leaves text without `?` unchanged |
| Placeholders.ReplaceFirstAt | fix_repo.py:32 | `replace('?', rep, 1)` replaces exactly the first `?` and keeps everything around it |
| Placeholders.SubstituteAll | fix_repo.py:29-32 | the replace-first loop leaves SQL without `?` unchanged, whatever the arguments |
| Placeholders.SubstituteAllIsBind | fix_repo.py:29-32 | when no argument holds `?`, the replace-first loop equals positional binding: the i-th `?` becomes `${args[i]}` |
| Placeholders.BindLeavesPlaceholders | fix_repo.py:29-32 | with k arguments and n placeholders, exactly n − min(k, n) placeholders are left |
| Placeholders.BindIgnoresExtraArguments | fix_repo.py:29-32 | arguments beyond the number of placeholders have no effect |
| Placeholders.BindTwoOf | fix_repo.py:29-32 | two placeholders separated by `?`-free text take the first and the second argument, in order |
| Placeholders.ArgumentPlaceholderIsCaptured | fix_repo.py:29-32 | an argument holding `?` captures the next argument inside its own interpolation, and the second placeholder of the SQL stays |
| Placeholders.CapturedArgumentDiffersFromBind | fix_repo.py:29-32 | for such an argument, the loop's result differs from positional binding |
| Placeholders.RewriteComplex | fix_repo.py:20-34 | the loop's result is the template of the replace-first fold over the parsed arguments, and it equals the template of positional binding when no argument holds `?` |
| Placeholders.EmptyListKeepsSql | fix_repo.py:25-32 | an empty or blank argument list leaves the SQL unchanged |
| Patterns.MatchLength | fix_repo.py:51 | a match found at the start of the text never runs past its end |
| Patterns.MatchIsRegexMatch | fix_repo.py:51 | for a pattern whose whitespace runs are each followed by a non-whitespace token, the greedy matcher finds a match of length n exactly when the regular expression matches the first n characters |
| Patterns.Substitute | fix_repo.py:51 | `re.sub` leaves text without the pattern's first character unchanged |
| Patterns.SubstituteSkips | fix_repo.py:51 | `re.sub` copies text that holds no first character of the pattern |
| Patterns.SubstituteCopiesUnmatched | fix_repo.py:51 | `re.sub` copies text at none of whose positions a match starts, whatever characters it holds |
| Patterns.SubstituteAtMatch | fix_repo.py:51 | a match at the scan position is replaced, and the scan resumes after it |
| Patterns.NoMatchUnchanged | fix_repo.py:51 | text with no match anywhere comes back unchanged |
| Patterns.NoMatchLeft | fix_repo.py:51 | with a replacement that cannot take part in a match, no match is left anywhere in the output |
| Patterns.SubstituteIdempotent | fix_repo.py:51 | with such a replacement, `re.sub` run twice gives the same result as run once |
| Dialect.CollatePatternFacts | fix_repo.py:51 | the pattern starts with `=`, never needs to backtrack, and `ILIKE ?` cannot take part in a match |
| Dialect.ComparisonMatches | fix_repo.py:51 | `=`, any whitespace, `?`, any whitespace, `COLLATE` in any case, at least one whitespace character and `NOCASE` in any case make one whole match |
| Dialect.CollateTextMatches | fix_repo.py:51 | `= ? COLLATE NOCASE` is one whole match |
| Dialect.CollateIgnoresCaseAndSpacing | fix_repo.py:51 | `=?collate\tnocase` is one whole match of all 16 characters |
| Dialect.CollateToIlike | fix_repo.py:51 | text without `=` is left unchanged |
| Dialect.MatchHoldsPlaceholder | fix_repo.py:51 | every match of the comparison pattern holds a `?` |
| Dialect.QuestionFreeUnchanged | fix_repo.py:51 | text without `?` is left unchanged, so a `COLLATE NOCASE` that does not follow `= ?` stays |
| Dialect.ComparisonBecomesIlike | fix_repo.py:51 | `x = ? COLLATE NOCASE y` becomes `x ILIKE ? y'`, where `y'` is `y` rewritten, whenever no match starts inside `x` |
| Dialect.NoCollateLeft | fix_repo.py:51 | after line 51 no match of its pattern is left at any position |
| Dialect.CollateIdempotent | fix_repo.py:51 | line 51 is idempotent |
| Text.ReplaceAll | fix_repo.py:54-61 | `str.replace` leaves text that does not contain the search text unchanged |
| Dialect.Line54IsNoOp | fix_repo.py:51-57 | after line 51 the search text of line 54 never occurs, so line 54 changes nothing |
| Dialect.Lines51And54DoNotCommute | fix_repo.py:51-57 | on `json_extract(power, '$[0]') = ? COLLATE NOCASE`, line 51 then line 54 gives `json_extract(power, '$[0]') ILIKE ?`, while line 54 then line 51 gives `power->>0 ILIKE ?` |
| Text.ReplaceAllAt | fix_repo.py:54-61 | `str.replace` keeps the text before the first occurrence as it is, puts the replacement where the occurrence stood, and goes on with the text after it |
| Text.ReplaceCopiesFront | fix_repo.py:54-61 | `str.replace` copies text at none of whose positions the search text starts, whatever follows it |
| Text.ReplaceCopiesPrefix | fix_repo.py:54-61 | as long as the output holds no first character of the replacement, it is a copy of the input |
| Dialect.ComparisonAfterPath | fix_repo.py:51 | `x path = ? COLLATE NOCASE y` becomes `x path ILIKE ? y'` when neither `x` nor `path` holds `=`; `y'` is `y` rewritten |
| Dialect.JsonComparisonBecomesIlike | fix_repo.py:51 | after text with no `=`, the `json_extract` comparison becomes `json_extract(power, '$[0]') ILIKE ?` and the rest of the text is rewritten on its own |
| Dialect.JsonComparisonBecomesArrow | fix_repo.py:51-61 | lines 51, 54 and 58 turn `x json_extract(power, '$[0]') = ? COLLATE NOCASE y` into `x power->>0 ILIKE ? y'`: the text `x` in front (no `=`, no `json_extract(power, '$[0]') ILIKE ?`) is kept, and `y'` is `y` through lines 51 and 58 |
| Dialect.JsonIlikeStartsOnlyAfter | fix_repo.py:58-61 | in front of `json_extract(power, '$[0]') ILIKE ?` no occurrence of it starts that the text before did not already hold |
| Dialect.JsonComparisonAlone | fix_repo.py:51-61 | the `json_extract` comparison by itself becomes `json_extract(power, '$[0]') ILIKE ?` at line 51 and `power->>0 ILIKE ?` at line 58 |
| Dialect.ArrowCannotRecreateJsonIlike | fix_repo.py:58-61 | `power->>0 ILIKE ?` cannot combine with its surroundings to recreate `json_extract(power, '$[0]') ILIKE ?` |
| Text.NothingLeftAfterReplace | fix_repo.py:58-61 | when the replacement cannot recreate the search text, `str.replace` leaves no occurrence of it |
| Dialect.RewriteDialect | fix_repo.py:51-61 | lines 51, 54 and 58 in order equal line 58 applied after line 51, and no `json_extract(power, '$[0]') ILIKE ?` remains |
| Patterns.ReplaceLeavesNoMatch | fix_repo.py:51-61 | a literal replace-all whose replacement cannot take part in a match of line 51 creates no match where there was none |
| Dialect.ArrowIsInert | fix_repo.py:51-61 | `power->>0 ILIKE ?` holds no `=`, and no token of line 51's pattern accepts its first character |
| Dialect.DialectIdempotent | fix_repo.py:51-61 | running lines 51, 54 and 58 a second time on their own output changes nothing |
| Driver.BoundCallSkipsCollate | fix_repo.py:20-51 | a `{ sql, args }` call whose arguments hold no `?` and cover every placeholder reaches line 51 with no `?` left, and line 51 leaves its template unchanged |
| Driver.SimpleCallGetsIlike | fix_repo.py:8-51 | a bare-string call reaches line 51 as a template, and line 51 still turns its `= ? COLLATE NOCASE` into `ILIKE ?` when the SQL before it holds no `=` |

## Left out

- The regular expressions that find the call sites are left out. These are the
  patterns on lines 17, 39 and 67 and their `re.sub` calls on lines 17, 40 and
  68. The model starts from the groups they capture: the quote and literal for
  `repl_simple`, the SQL and `[...]` text for `repl_complex`, and the SQL for
  `repl_no_args`. Lazy `.*?` matching with backtracking is not modelled, nor
  whether one pass can create or destroy a call site that a later pass's
  regular expression finds. The `Driver` lemmas follow one call's captured
  text through the passes.
- File discovery and file I/O are left out: `glob` and reading on lines 44–47,
  and the compare-and-write on lines 70–72. The model works on one file's text
  as a parameter.
- Only the case folding that line 51's pattern needs is modelled. That is the
  ASCII letters of `COLLATE` and `NOCASE`, plus the long s (U+017F) that a
  case-insensitive `S` also matches. `Dialect.ComparisonMatches` covers ASCII
  spellings of the keywords only. The matcher itself accepts the long s, but no
  lemma states a match that uses it.
- Arguments.ParseWrittenList: the first argument must not start, and the last
  must not end, with `[`, `]`, a space or a newline. `strip('[] \n')` would cut
  into such an argument, so the round trip does not hold for it.
- Dialect.JsonComparisonBecomesArrow: states the result only when the text in
  front of the `json_extract` comparison holds no `=`; in front of other
  comparisons, `Dialect.ComparisonBecomesIlike` states line 51 on its own.
- Driver.SimpleCallGetsIlike: states the rewrite only for the first comparison
  in the SQL, with no `=` before it. Later comparisons are covered by
  `Dialect.ComparisonBecomesIlike` applied to the rest of the text.
