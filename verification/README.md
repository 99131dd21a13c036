# dcj — a verified model of the Docker Compose Jinja wrapper

`dcj` wraps `docker compose`. It works in four steps:

1. It rewrites its own command-line flags into their compose equivalents:
   - `--yml-file F` and `--yml-file=F` become `-f F`;
   - `--env-file F` becomes `--env-file F`; the `--env-file=F` spelling is split into these two tokens;
   - `--dump` is removed.
2. It loads a `.env` file into the process environment. A variable that is already set is never overwritten.
3. It renders the first Jinja template it finds (`docker-compose.jinja.yml`, `docker-compose.jinja`, `docker-compose.j2.yml`, `docker-compose.j2`) to a YAML file.
4. It runs compose. It prefers `docker compose` and falls back to `docker-compose`.

Three more modes stop before any of this:
- a lone `-h`/`--help` is forwarded to compose;
- `--jhelp` prints dcj's usage;
- `--jdebug` runs a diagnostic report.

The project has four modules:

- `Text` (`text.dfy`): the Python string operations the program uses, over ASCII. These are `strip`, `lstrip`, `rstrip`, `isspace`, `isalnum`, `lower`, `startswith`, `split("=", 1)` and `replace`.
- `Args` (`args.dfy`): the argument rewriter.
  - It is the class `ArgRewriter`. Its `Process` method is the cursor loop of `process`, and it is proved against a specification.
  - In that specification, the command line is cut into *units*: a forwarded token, or a custom flag together with the value it consumed. The output is the concatenation of what each unit emits, and the collected `CustomArgs` are a left fold over the units.
  - The module also holds the older `parse_equals_or_next` lookup, as a method with a loop.
- `DotEnv` (`dotenv.dfy`): the `.env` loader.
  - Its parts are the inline-comment scanner (a method with a loop, proved against a recursive scanner state), the per-line parser, and the loader loop.
  - The loader loop is proved equal to a fold that inserts a binding only if its key is absent.
- `Dcj` (`dcj.dfy`): `which_compose`, `find_first_template`, mode selection, and the plan `main` follows in its normal mode.
  - These are pure functions over a `World`. The `World` records the regular files and their lines, what the `PATH` lookups found, and whether a template renders against an environment.
  - One invocation yields a `Run`. A `Run` holds the environment afterwards, the YAML file written, and the outcome: an exit with a status and message, the usage text, the debug report, the rendering printed to stdout, or the compose command that is run.

Two behaviours of the code that are easy to miss. The model follows the code in both:

- **Single-quoted `.env` values.** The comment at `dcj.py:209-210` says single-quoted values are kept literally. The condition at `dcj.py:211` decodes escapes whenever the raw line starts with `"`, *or* the unquoted content is non-empty and does not start with `'`.
  - So `KEY='a\nb'` gets a real newline.
  - `DotEnv.Unquote` models the condition as written. `DotEnv.SingleQuotedValueDecoded` states the consequence, and `DotEnv.SingleQuotedEscapeDecoded` states the newline case.
- **When a missing compose runner is noticed.** `render_template_to_yaml` writes the YAML file at `dcj.py:460`, and `which_compose`, which raises when no runner exists, is first called afterwards at `dcj.py:471`.
  - So with no runner, the YAML file is still written, and then the run exits with status 1.
  - `Dcj.WrittenFile` states this: the file is written whether or not a runner exists.

## Model

Some functions have no contract of their own. They are the specifications that the lemmas below talk about, and the rows of those lemmas say what they mean:

- `Args.Parse` (dcj.py:105-141) and `Args.Classify` (dcj.py:107-140);
- `Text.Strip` (dcj.py:190, 201-202) and `Text.AfterFirst` (dcj.py:115);
- `DotEnv.Quoted` (dcj.py:204, 207), `DotEnv.Inner` (dcj.py:208), `DotEnv.DecodesEscapes` (dcj.py:211) and `DotEnv.ValidKey` (dcj.py:213);
- `DotEnv.StripInlineComment` (dcj.py:165-185), the function that `DotEnv.StripInlineCommentUnquoted` is proved equal to;
- `DotEnv.Install` (dcj.py:213-216) and `DotEnv.FirstBinding` (dcj.py:189-216);
- `Dcj.Launch` (dcj.py:471-479), the last step of a normal run; `Dcj.LaunchedCommand` and `Dcj.ComposeCommand` state what it launches.

| member | source | states |
|---|---|---|
| Args.ArgRewriter.constructor | dcj.py:95-98 | A new rewriter keeps the original argv, starts with empty custom values, and has `rewritten` equal to argv. |
| Args.ArgRewriter.Process | dcj.py:100-143 | If the command line parses into units, it returns the fold of the units over the old custom values and sets `rewritten` to their concatenated emissions. If a bare `--yml-file`/`--env-file` is the last token, it returns the error "FLAG requires a value", keeps the values recorded before that point, and leaves `rewritten` unchanged. |
| Args.Rewrite | dcj.py:100-143 | The rewrite fails only when the last token is a bare `--yml-file` or `--env-file`, and the error then names that flag. |
| Args.RunRewriter | dcj.py:431-432 | A fresh rewriter followed by `process()` yields exactly `Rewrite(argv)`: the forwarded arguments and the collected values, or the missing-value error. |
| Args.ParseCovers | dcj.py:105-141 | Every command line is covered by its parse. Either the units' source tokens are the whole input, or the units read before the error, followed by the flag, are the whole input. Forwarded tokens are never dcj flags. |
| Args.ParseAfterUnits | dcj.py:105-141 | Parsing the source tokens of well-formed units followed by more tokens yields those units, then the parse of the rest. |
| Args.ParseTokens | dcj.py:105-141 | Round trip: parsing the source tokens of well-formed units gives back exactly those units. |
| Args.ParseSource | dcj.py:107-141 | One unit at the front is read back as that unit, before the parse of the rest. |
| Args.MissingValueAtEnd | dcj.py:109-111 | A bare `--yml-file` or `--env-file` as the last token, after any well-formed prefix, makes the rewrite fail with "FLAG requires a value". |
| Args.PlainTokensForwarded | dcj.py:138-140 | Tokens that are not dcj flags are all forwarded unchanged and in order, and they change no custom value. |
| Args.IdentityWithoutCustomFlags | dcj.py:100-143 | A command line without dcj flags rewrites to itself with default custom values. |
| Args.BothFormsAgree | dcj.py:107-131 | `--flag V` and `--flag=V` rewrite identically, for `--yml-file` and `--env-file`. |
| Args.FlagsLeaveTrace | dcj.py:117-136 | A recorded `--yml-file` value appears in the output as `-f VALUE`, and a recorded `--env-file` value as `--env-file VALUE`. Dump is set exactly when a `--dump` unit occurs. |
| Args.YmlFileImpliesDashF | dcj.py:117-119 | Whenever the rewrite records a yml file, the output contains `-f` followed by that value. |
| Args.FoldConcat | dcj.py:117-136 | Collecting values over two stretches of the command line equals collecting over the first, then continuing over the second. |
| Args.FoldKeeps | dcj.py:117-130 | A stretch with no `--yml-file` (or no `--env-file`) leaves that value as it was. |
| Args.LastOccurrenceWins | dcj.py:117-130 | When a flag is repeated, the value of the last occurrence is the one recorded. |
| Args.ParseEqualsOrNext | dcj.py:65-82 | Looks up the FIRST token that is `flag` or starts with `flag=`. The result is none with no indices iff no token names the flag. For `flag V` it returns V with indices [i, i+1]. For `flag=V` it returns the text after the first `=` with [i]. A bare flag as the last token is the error "Expected a value after FLAG". |
| Text.LStrip | dcj.py:190-195 | `lstrip` returns a suffix that does not start with whitespace, and only whitespace was removed. |
| Text.RStrip | dcj.py:185 | `rstrip` returns a prefix that does not end with whitespace, and only whitespace was removed. |
| Text.IndexOf | dcj.py:200 | The position of the first `=` (the split point of `split("=", 1)`), or the length when there is none. |
| Text.AfterFirstJoined | dcj.py:115 | `(flag + "=" + v).split("=", 1)[1] == v` for a flag without `=`. |
| Text.JoinedSplits | dcj.py:107-116 | A token starting with `flag=` is `flag=` followed by what `split("=", 1)[1]` returns. |
| Text.Replace | dcj.py:212 | `replace` leaves a string unchanged when the pattern's first character does not occur in it, and it never lengthens a string when the replacement is not longer than the pattern. |
| Text.ReplaceNoStart | dcj.py:212 | A prefix without the pattern's first character is copied unchanged, and replacing goes on after it. |
| Text.ReplaceHit | dcj.py:212 | An occurrence of the pattern at the front is replaced, and replacing goes on after it. |
| Text.ReplaceMiss | dcj.py:212 | A two-character piece that is not the pattern, and whose second character cannot start it, is copied unchanged. |
| Text.ReplaceFreePiece | dcj.py:212 | A piece free of the pattern's first character, after such a prefix, is copied unchanged. |
| Text.ReplacePairPiece | dcj.py:212 | A two-character piece after such a prefix is replaced exactly when it is the pattern. |
| DotEnv.CommentStart | dcj.py:165-185 | The comment starts at the first `#` that is neither escaped nor inside quotes, or nowhere. Every earlier character opens no comment. |
| DotEnv.CutFromFindsFirst | dcj.py:171-184 | Scanning from a position with the right quote/escape state stops at the first comment-opening `#`. |
| DotEnv.StripInlineCommentUnquoted | dcj.py:165-185 | The loop returns the text before the first live `#` (or all of it), with trailing whitespace removed. |
| DotEnv.ParseLine | dcj.py:189-216 | A blank or `#` line is ignored, and nothing else is. A binding's key is non-empty and made of letters, digits and `_`. A rejected key is not. |
| DotEnv.SplitBinding | dcj.py:196-216 | After the blank, comment and `export ` checks: a line without `=` is skipped, and only then. Otherwise the result is a binding with a valid key or a rejected invalid key. |
| DotEnv.BindingLine | dcj.py:189-216 | A line `KEY<spaces>=<spaces>VALUE`, with a valid key and a non-empty value with no surrounding whitespace, binds exactly `KEY` to the cleaned `VALUE`, unless `KEY` spells `export` in any letter case and a space follows it (that line is `DotEnv.ExportNamedKey`'s). Whitespace around `=` and around the whole line is dropped. |
| DotEnv.EmptyValueLine | dcj.py:189-216 | `KEY<spaces>=`, with optional whitespace around the line, binds `KEY` to the empty string, unless `KEY` spells `export` in any letter case and a space follows it. |
| DotEnv.ExportedEmptyValueLine | dcj.py:189-216 | `export <spaces>KEY<spaces>=`, with the prefix in any letter case (`EXPORT`, `Export`, ...) and optional whitespace around the line, binds `KEY` to the empty string. |
| DotEnv.SplitsAtTrailingEquals | dcj.py:200-216 | A key, whitespace and a final `=` split into that key and an empty value. |
| DotEnv.ExportedBindingLine | dcj.py:189-216 | `export <spaces>KEY<spaces>=<spaces>VALUE`, with the prefix in any letter case, a non-empty value and optional whitespace around the line, binds the same key to the same cleaned value as the line without the prefix. |
| DotEnv.NoEqualsLine | dcj.py:196-199 | A non-blank, non-comment line without `=` is skipped as having no `=`. |
| DotEnv.ExportNamedKey | dcj.py:194-213 | A key spelled `export` (any case) followed by a space before `=` is read as the `export ` prefix. It leaves an empty key, which is rejected. |
| DotEnv.DropExport | dcj.py:194-195 | A line starting with `export ` in any letter case loses exactly those seven characters and the whitespace after them: the result is a suffix of the line that does not start with whitespace, and only whitespace lies between the prefix and it. Any other line is unchanged. |
| DotEnv.DropExportSuffix | dcj.py:194-195 | What remains after the `export ` check is always a suffix of the line. |
| DotEnv.CleanValue | dcj.py:203-212 | A quoted value is unquoted, and nothing else happens to it. The result is never longer than the value. |
| DotEnv.Unquote | dcj.py:207-212 | The quotes are removed. The content is kept as it is when it has no backslash or the decode condition of line 211 is false. It never grows. |
| DotEnv.DecodeEscapes | dcj.py:212 | Text without a backslash is unchanged, and decoding never makes text longer. |
| DotEnv.LoadFrom | dcj.py:189-216 | The keys added earlier stay listed first, in order, and each line adds at most one key. |
| Text.LStripExact | dcj.py:195 | `lstrip` removes exactly a leading run of whitespace before a non-space character. |
| Text.RStripExact | dcj.py:185 | `rstrip` removes exactly a trailing run of whitespace after a non-space character. |
| Text.StripExact | dcj.py:190-202 | `strip` of whitespace, text without surrounding whitespace, then whitespace gives back exactly that text. |
| DotEnv.LoadDotenv | dcj.py:148-222 | A path that is not a file changes nothing and loads no key. Otherwise, the loop over the lines leaves exactly the environment and added-key list of the insert-if-absent fold of the parsed lines. |
| DotEnv.InstallAdds | dcj.py:213-216 | One insert-if-absent step keeps the loaded-keys invariant. Existing values are untouched, and new keys are valid, listed once, and absent from the original environment. |
| DotEnv.LoadAdds | dcj.py:189-216 | Loading any lines keeps that invariant. |
| DotEnv.LoadNeverOverwrites | dcj.py:213-216 | After loading a file, every variable set before keeps its value. The returned keys are exactly the new ones, each valid and listed once. |
| DotEnv.FirstWriterWins | dcj.py:189-216 | A key set before keeps its value. Otherwise the key is bound exactly when some line binds it, and to the value of the first such line. |
| DotEnv.QuotedValueKept | dcj.py:204-208 | A quoted value without backslashes keeps its whole content, `#` included. No comment is stripped inside quotes. |
| DotEnv.EscapeDecoded | dcj.py:212 | After text without a backslash, `\n` becomes a newline, `\t` a tab, `\"` a double quote and `\'` a single quote, and decoding goes on after it. |
| DotEnv.DecodePasses | dcj.py:212 | After text without a backslash, a backslash and one other character come out of the four passes as `PassesLeave` of that pair, and decoding goes on after it. |
| DotEnv.EscapeLeaves | dcj.py:212 | Each of the four escapes is a backslash and one other character, and the passes turn it into exactly the character it stands for. |
| DotEnv.EscapePass | dcj.py:212 | One of the four replacement passes replaces its own escape and copies the other pieces. |
| DotEnv.DoubleQuotedValueDecoded | dcj.py:207-212 | A double-quoted value has its escapes decoded, unless its content starts with `'` and the line does not start with `"`. |
| DotEnv.SingleQuotedEscapeDecoded | dcj.py:207-212 | So `KEY='a\nb'` stores `a`, a real newline, then `b`: an escape in a single-quoted value is decoded when the content does not start with `'`. |
| DotEnv.SingleQuotedValueDecoded | dcj.py:207-212 | A single-quoted value whose content does not start with `'` has its escapes decoded, as the condition at line 211 is written. |
| DotEnv.PlainTextKeepsStart | dcj.py:171-181 | Text without quotes or backslashes leaves the scanner in its start state. |
| DotEnv.CommentAtFirstHash | dcj.py:182-184 | With no quote or backslash before it, the first `#` is where the comment starts. |
| DotEnv.PlainValueKept | dcj.py:203-207 | A value without `#`, quote characters or surrounding whitespace is stored exactly as written: no comment is cut, nothing is unquoted, and backslashes stay. |
| DotEnv.UnquotedCommentCut | dcj.py:204-205 | For an unquoted `value # comment`, the stored value is `value` with trailing whitespace removed. |
| Dcj.WhichCompose | dcj.py:49-62 | Succeeds iff `docker` or `docker-compose` was found. `docker compose` is preferred. Finding neither is the error naming both. |
| Dcj.FirstExisting | dcj.py:353-357 | The index of the first name that is an existing file; every earlier name is missing. |
| Dcj.FindFirstTemplate | dcj.py:353-357 | No template is found iff none of the four names exists. Otherwise the result is an existing template name, and every name before it in the fixed order is missing. |
| Dcj.TemplatePreference | dcj.py:34-39 | `docker-compose.jinja.yml` wins whenever it exists. A `.j2` template is picked only when neither `.jinja` template exists. |
| Dcj.RemoveAll | dcj.py:424 | The filtered arguments contain no `--jdebug`, and every other argument keeps its count. |
| Dcj.RemoveAllConcat | dcj.py:424 | Filtering preserves order: it distributes over concatenation. |
| Dcj.RemoveAllAbsent | dcj.py:424 | Arguments without `--jdebug` pass the filter unchanged. |
| Dcj.SelectMode | dcj.py:403-425 | The debug mode never sees `--jdebug`. |
| Dcj.ModePriority | dcj.py:403-425 | A lone `-h`/`--help` goes to compose. Otherwise `--jhelp` anywhere beats `--jdebug` anywhere. Only a command line with none of these runs normally. |
| Dcj.DebugKeepsOtherArguments | dcj.py:422-425 | `--jdebug` at any position is dropped, and the arguments on each side are kept in order. |
| Dcj.OrDefault | dcj.py:436 | Python's `value or default`: a missing or empty value falls back to the default. |
| Dcj.DumpNeverRunsCompose | dcj.py:443-469 | With `--dump`, compose never runs and no file is written. The run exits with status 2 iff there is no template. The rendering is printed iff a template exists and renders. |
| Dcj.RenderAndRun | dcj.py:442-479 | Rendering, building the compose command and running it never change the environment loaded before. |
| Dcj.LaunchedCommand | dcj.py:442-479 | When compose is launched, a runner was found, the run is not a dump, and the command is the runner followed by the final arguments: `-f OUTPUT` only if a template exists and neither `-f` nor `--file` is present, then the rewritten arguments. |
| Dcj.InjectedFile | dcj.py:462-476 | If a `--yml-file` value always comes with a `-f`, the injected `-f` can only name `docker-compose.yml`, and it is injected exactly when a template exists and no compose file is named. |
| Dcj.ComposeCommand | dcj.py:443-479 | A normal run that launches compose runs the runner, then `-f docker-compose.yml` exactly when a template exists and the rewritten arguments contain neither `-f` nor `--file`, then the rewritten arguments in order. The injected file is always the default output. |
| Dcj.WrittenFile | dcj.py:443-464 | The YAML file is written iff a template exists, the run is not a dump, and the template renders. It goes to the `--yml-file` value, or to `docker-compose.yml` when that is absent or empty. |
| Dcj.PlainArgumentsForwarded | dcj.py:429-479 | With no dcj flags and no template, compose receives the arguments unchanged, and `.env` is loaded. |
| Dcj.MissingValueStopsEarly | dcj.py:429-433 | In the normal mode, a bare `--yml-file` or `--env-file` as the last token, after a well-formed prefix, stops the run with status 1 and "FLAG requires a value". Nothing is loaded, written or run. |
| Dcj.LoadEnvKeeps | dcj.py:436-440 | Loading the chosen env file keeps every existing variable and only adds valid keys. |
| Dcj.EnvNeverOverwritten | dcj.py:398-488 | In every mode, a run never changes an environment variable that was already set. |
| Dcj.LoadEnv | dcj.py:436-440 | A path that is not a regular file leaves the environment as it was. Otherwise no existing variable changes. |
| Dcj.FinalArgs | dcj.py:463-476 | The rewritten arguments always end the list. Without an output or with `-f`/`--file` already present, they are the whole list. Otherwise `-f OUTPUT` comes first, so a compose file is always named. |
| Dcj.RunNormal | dcj.py:429-479 | A rewrite error ends the run with status 1 and that message, before anything is loaded or written. The environment only gains variables. Compose runs only when a runner was found. A file is written only after a successful rewrite without `--dump`. |
| Dcj.Dcj | dcj.py:398-488 | Modes other than normal leave the environment alone and write nothing. `--jhelp` shows the usage, and `--jdebug` runs the diagnosis with the filtered arguments. No variable already set changes, and compose runs only when a runner was found. |
| Dcj.EnvFileChosen | dcj.py:436-440 | The env file loaded is the `--env-file` value, or `.env` when that is absent or empty. |

## Left out

- Process execution is not modelled: `subprocess.run`, the child's exit status that `main` returns, and the `shlex.quote` echo of the command. A `RunCompose` outcome names the command, and the status is the child's.
- Jinja rendering (`render_template_string`, `render_template_to_yaml`) is an opaque capability. `World.renders(template, env)` says whether rendering succeeds. The rendered text and the Jinja2-missing error are not modelled.
- `shutil.which`, `os.path.isfile`, `os.path.isdir` and `os.makedirs` are inputs, not behaviour:
  - the lookups are `World.docker` and `World.legacy`;
  - a regular file is a key of `World.files`;
  - creating the output directory is not modelled.
- File reading is not modelled: opening, UTF-8-sig/BOM decoding, line splitting and the catch-all `except` at `dcj.py:220-221`. A `.env` file is given as its list of lines.
- Output only, not modelled: `print_help`, `dump_environment_vars`, the warning for a missing `--env-file`, and every diagnostic `print`.
- `run_single_debug` is modelled only by the arguments it receives (`Diagnose(args)`). Its own env loading, template probe and exit status are left out because they are diagnostics. So in the debug mode, `Run.env` is the environment unchanged.
- Dcj.RenderAndRun: an uncaught render failure on the file-writing path ends with status 1 and a traceback. The model records `Exit(1, "Template render failed")` without the traceback text. A missing runner is modelled as `Exit(1, message)` with the `RuntimeError` message.
- Text.Replace: its contract states only that a string without the pattern's first character is unchanged, plus a length bound. Left-to-right, non-overlapping replacement is stated by the lemmas `ReplaceNoStart`, `ReplaceHit` and `ReplaceMiss`, for two-character patterns such as the escapes.
- Text.IsSpace, Text.IsAlnum, Text.Lower: Python's Unicode `isspace`, `isalnum` and `lower` are reduced to their ASCII behaviour.
- Setting an environment variable whose value holds a NUL character fails in Python. This is not modelled: the environment is a map of strings.
