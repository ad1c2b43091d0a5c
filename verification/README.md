# manen core, modelled in Dafny

manen is a Lua read-eval-print loop. This project models four parts of it
and proves properties of the model:

- **Local-name completion** (`src/completion.rs`). The resolver walks the
  syntax tree of the edited line and builds one scope per block. A scope
  holds the names that the block's parent construct introduces and the
  names that its direct `local` / `local function` statements declare. The
  `locals` query keeps every name whose declaration ends at or before the
  cursor, taken from every scope that covers the cursor. The upvalue
  completion merges those names with the globals, sorts them and keeps the
  ones that begin with the typed text. `complete` glues these together.
- **Display sanitising** (`src/inspect.rs`).
  - `remove_invalid` keeps the well-formed UTF-8 of a Lua byte string.
  - It writes each byte of an invalid sequence as `\x` followed by
    upper-case hexadecimal.
  - `escape_control` replaces control characters by Lua escapes. It first
    uses the named escapes (`\n`, `\t`, …, `\127`), then the decimal
    escapes `\0` … `\31`. Afterwards every `\\x` is turned back into `\x`.
- **Special commands** (`src/editor.rs`). A line starting with `.` never
  reaches Lua. `.help` prints the command list. `.format` chooses the table
  printer.
- **Configuration** (`src/config.rs`).
  - The default configuration.
  - The `manen.<key> = value` setter, with the type check of its `field!`
    macro and every error it reports.
  - The executor choice.

Modules: `Results` (Option/Result), `Strings` (prefixes, byte-wise string
order, insertion sort, prefix filtering, Unicode-whitespace splitting,
decimal and hex rendering), `Utf8` (the standard library's UTF-8
validator and encoder), `Inspect`, `Completion`, `CompletionExamples` (the
two unit tests of the completion module), `Editor` and `Config`.

Modelling choices:

- **Strings.**
  - Strings are sequences of Unicode scalar values.
  - Rust orders `String`s by their UTF-8 bytes. That is the same as
    code-point order, which `Strings.Le` uses.
  - `split_whitespace` splits at the characters with the Unicode
    `White_Space` property.
- **The UTF-8 validator.**
  - It reports `valid_up_to`.
  - Its `error_len` is the length of the maximal invalid subpart, 1 to 3
    bytes.
  - `error_len` is `None` only when the input ends inside a sequence that
    could still be completed.
- **An incomplete sequence at the end of a string is dropped.** When the
  validator reports no `error_len`, `remove_invalid` returns what it has.
  So an incomplete multi-byte sequence at the very end of a string is
  dropped without trace. For example, the bytes `E2 82` display as nothing,
  while `E2 41` display as `\xE2A` (`Inspect.TruncatedTailDropped`,
  `Inspect.CutShortVersusInvalid`).
- **Overlapping escapes.** The escape table lists `\n`, `\r`, `\t`, BEL,
  BS, VT and FF twice: once with a named escape and once among `\0`…`\31`.
  Which of two equal patterns the Aho-Corasick replacement picks is decided
  inside that library, not in this repository. The model assumes that the
  pattern added first wins, so the named escape is taken for those
  characters.
- **Configuration values.** A Lua number is carried as its rendered text.
  A Lua integer is an `i64`, and `history_size` accepts it when it is
  non-negative.
- **Environment.** Whether a path exists (`path.exists()`) and whether a
  system Lua starts are parameters of the model.
- **Parsing.** The Lua parser is not modelled: scope resolution takes the
  syntax tree as input.
  - Each node kind that the resolver inspects carries what the parser's
    typed accessors return for it.
  - The example lemmas build the trees of the two test texts by hand. They
    take each function or loop body to span from the end of its header to
    the start of its `end`.

## Model

| member | source | states |
|---|---|---|
| Inspect.RemoveInvalid | src/inspect.rs:45-76 | The validation loop returns `Sanitize(input)`. `Sanitize` is the reference reading: well-formed characters are kept, each byte of an invalid sequence becomes `\xHH`, and a sequence cut short by the end of the input ends the output. |
| Inspect.SanitizeValid | src/inspect.rs:49-53 | Input that is valid UTF-8 comes out as exactly its decoding. |
| Inspect.SanitizeAtError | src/inspect.rs:54-60 | At a decode error the output is the decoded valid prefix (up to `valid_up_to`), followed by the sanitised rest. |
| Inspect.SanitizeErrorStep | src/inspect.rs:54-73 | After the valid prefix, either nothing follows (no `error_len`) or the `error_len` bad bytes follow, escaped, and then the sanitised remainder. |
| Inspect.SanitizeEncode | src/inspect.rs:45-76 | Sanitising the UTF-8 encoding of any string gives the string back. |
| Inspect.SanitizeAfterValid | src/inspect.rs:55-60 | A well-formed prefix is copied through unchanged, whatever bytes follow it. |
| Inspect.TruncatedTailDropped | src/inspect.rs:62-66 | A well-formed string followed by an incomplete multi-byte sequence displays as the string alone: the cut-short tail is dropped. |
| Inspect.CutShortVersusInvalid | src/inspect.rs:62-70 | `E2 82` at the end of the input displays as nothing, while `E2 41` displays as `\xE2A`. |
| Inspect.InvalidBytesEscapeToFour | src/inspect.rs:68-70 | Every byte of an invalid sequence is at least 0x80, so it is written as exactly four characters: `\x` and two hex digits. |
| Inspect.RemoveInvalidTurn | src/inspect.rs:49-72 | One turn of the loop either finishes with the whole result, or emits a piece and leaves a strictly shorter remainder whose result completes the piece. |
| Inspect.Replacements | src/inspect.rs:5-35 | No contract of its own: the eight named escapes, then a backslash and the decimal code for each of the codes 0 to 31, in the order they are pushed. `Inspect.EscapeCharTable` states the table in closed form. |
| Inspect.EscapeChar | src/inspect.rs:39-41 | No contract of its own: what the table replacement does to one character. `Inspect.EscapeCharTable` and `Inspect.EscapeCharNoControl` state its result. |
| Inspect.EscapeCharTable | src/inspect.rs:5-35 | The replacement table character by character. BEL, BS, TAB, LF, VT, FF and CR use their named escapes and DEL uses `\127`. Every other character below space uses `\` and its decimal code. Any other character is kept. |
| Inspect.EscapeCharNoControl | src/inspect.rs:5-35 | No replacement contains a control character. |
| Inspect.ReplaceControl | src/inspect.rs:39-41 | After the table replacement the text has no control characters. |
| Inspect.ReplaceControlIdentity | src/inspect.rs:39-41 | Text without control characters is left unchanged by the table replacement. |
| Inspect.CollapseEscapedX | src/inspect.rs:42 | No contract of its own: one left-to-right pass that turns each non-overlapping backslash, backslash, `x` into backslash, `x`. `Inspect.CollapseDoubled`, `Inspect.CollapseIdentity` and `Inspect.CollapseNoControl` state its properties. |
| Inspect.CollapseNoControl | src/inspect.rs:42 | Collapsing `\\x` to `\x` introduces no control character. |
| Inspect.CollapseDoubled | src/inspect.rs:42 | Collapsing undoes doubling the backslash of every `\x`, so the collapse is the inverse of that escaping. |
| Inspect.CollapseIdentity | src/inspect.rs:42 | Text without `\\x` is left unchanged by the collapse. |
| Inspect.EscapeControl | src/inspect.rs:39-43 | The escaped text has no control characters. |
| Inspect.EscapeControlIdentity | src/inspect.rs:39-43 | Text with no control characters and no `\\x` is printed unchanged. |
| Inspect.CleanupString | src/inspect.rs:78-80 | The result is the escaped sanitised text, and it contains no control characters. |
| Utf8.FromUtf8Encode | src/inspect.rs:49 | The validator accepts the UTF-8 encoding of any string and decodes it back to that string. |
| Utf8.FromUtf8IsEncoding | src/inspect.rs:49 | Whatever the validator accepts is the encoding of its decoding. |
| Utf8.ErrorPosition | src/inspect.rs:54-66 | At `valid_up_to` the input holds one of two things. Either it is a sequence cut short by the end (exactly when there is no `error_len`), or it is an invalid sequence of `error_len` bytes. |
| Strings.HexUpper | src/inspect.rs:69 | The rendering uses upper-case hex digits and has the byte's value. It has exactly two digits for every byte from 0x10 up. |
| Strings.Decimal | src/inspect.rs:29-32 | The rendering uses decimal digits, has the number's value and no leading zero. |
| Strings.Sort | src/completion.rs:196 | The result is sorted and is a permutation of the input. |
| Strings.SortedUnique | src/completion.rs:196 | Two sorted permutations of the same list are equal, so the sorted order is unique. |
| Strings.FilterPrefixCount | src/completion.rs:198-201 | The filter keeps every occurrence of a string that begins with the query and drops every other string. |
| Strings.FilterPrefixSorted | src/completion.rs:196-201 | Filtering a sorted list leaves it sorted. |
| Strings.FilterPrefixAppend | src/completion.rs:194-201 | Filtering a joined list filters each part and joins the results, so the locals and the globals can be filtered apart. |
| Strings.TokensSkipWhitespace | src/editor.rs:82 | Leading whitespace adds no word. |
| Strings.TokensAroundWhitespace | src/editor.rs:82 | A run of whitespace separates words exactly like a single space. |
| Strings.TokensUnwords | src/editor.rs:82 | Splitting words joined by spaces gives the words back. |
| Completion.ResolveScopes | src/completion.rs:54-131 | No contract of its own: one scope per block of the pre-order walk, in walk order. `Completion.ResolveScopesCount`, `Completion.ResolveScopesStructure`, `Completion.BlockHasScope` and `Completion.ScopeHasBlock` state its properties. |
| Completion.ScopeOf | src/completion.rs:60-125 | No contract of its own: the block's range, with the variables its parent declares followed by those its statements declare. `Completion.BlockHasScope` and `Completion.DeclarationVisibility` state what it collects; `Completion.ChildrenVariablesFrom` and `Completion.VisibleVariableOrigin` state that it collects nothing else. |
| Completion.ParentVariables | src/completion.rs:62-92 | No contract of its own: a closure's named parameters, a generic `for`'s names, or a numeric `for`'s counter. `Completion.ClosureParamVisibility`, `Completion.ForRangeVisibility` and `Completion.ForCounterVisibility` state which range each one gets. |
| Completion.StatementVariables | src/completion.rs:96-120 | No contract of its own: a `local function`'s name, or each name of a `local` statement. `Completion.LocalFunctionVisibility` and `Completion.LocalStatementVisibility` state which range each one gets. |
| Completion.ResolveScopesCount | src/completion.rs:59-126 | There is exactly one scope per block node of the tree. |
| Completion.ResolveScopesStructure | src/completion.rs:54-131 | The scopes of the pre-order walk are the scopes of the root's blocks followed by those of its children, subtree by subtree. |
| Completion.BlockHasScope | src/completion.rs:59-125 | Every block visited contributes its scope. |
| Completion.ScopeHasBlock | src/completion.rs:59-125 | Every scope comes from a visited block. |
| Completion.VisibleVariablesSpec | src/completion.rs:133-147 | A declaration is reported if and only if some scope holds it, that scope covers the position (both ends inclusive), and the declaration ends at or before the position. |
| Completion.ChildrenVariablesFrom | src/completion.rs:96-120 | Every name a block collects from its statements was declared by one of its direct statements. |
| Completion.VisibleInWalk | src/completion.rs:59-147 | A variable reported at a position was declared into a visited block that covers the position, by the block's parent construct or by one of its direct statements, and its range ends by the position. |
| Completion.VisibleVariableOrigin | src/completion.rs:54-147 | The same for the scopes resolved from a whole tree: names never leak out of the block that declares them. |
| Completion.Locals | src/completion.rs:133-147 | The outer loop returns the names of the visible declarations, scope by scope in walk order, skipping scopes that do not cover the position. |
| Completion.VisibleNames | src/completion.rs:138-142 | The inner loop keeps, in order, the names of exactly those variables of one scope whose range ends at or before the position. |
| Completion.LocalsMembership | src/completion.rs:133-147 | A name is returned if and only if it is declared in a scope covering the position and its declaration ends at or before the position. |
| Completion.DeclarationVisibility | src/completion.rs:54-147 | Inside a block, any declaration of that block is visible exactly from the end of its range on. |
| Completion.ClosureParamVisibility | src/completion.rs:62-74 | A named closure parameter is visible in the closure's body exactly from the end of the whole parameter. |
| Completion.ForRangeVisibility | src/completion.rs:75-82 | Each generic-`for` name is visible in the loop body exactly from the end of its token. |
| Completion.ForCounterVisibility | src/completion.rs:83-90 | The numeric-`for` counter is visible in the loop body exactly from the end of its token. |
| Completion.LocalFunctionVisibility | src/completion.rs:98-107 | A `local function` name is visible in the enclosing block exactly from the end of its name token, so the function body already sees it. |
| Completion.LocalStatementVisibility | src/completion.rs:108-117 | A `local` name is visible only from the end of the whole statement, so never inside its own initialiser. |
| Completion.AutocompleteUpvalue | src/completion.rs:193-202 | The result is sorted, every entry begins with the query, and it holds exactly the locals and globals that begin with the query, with multiplicity. |
| Completion.Suggest | src/completion.rs:215-227 | With no identifier there are no suggestions. With one, the suggestions are its sorted upvalue completions, each replacing the identifier's range. |
| Completion.Complete | src/completion.rs:204-228 | No line and no cursor position yields a suggestion, because the identifier lookup never finds one. |
| CompletionExamples.LocalsTextScopes | src/completion.rs:240-274 | Scope resolution of the `locals` test text yields its five blocks in walk order, each with the names its header and `local` statements declare. |
| CompletionExamples.LocalsAtLine2 | src/completion.rs:276-279 | At line 2 of the `locals` test the locals are `foo, a, b`. |
| CompletionExamples.LocalsAtLine6 | src/completion.rs:281-284 | At line 6 the locals are `foo`. |
| CompletionExamples.LocalsAtLine9 | src/completion.rs:286-289 | At line 9 the locals are `foo, bar, c`. |
| CompletionExamples.LocalsAtLine13 | src/completion.rs:291-294 | At line 13 the locals are `foo, bar`. |
| CompletionExamples.LocalsAtLine16 | src/completion.rs:296-299 | At line 16 the locals are `foo, bar, i`. |
| CompletionExamples.LocalsAtLine20 | src/completion.rs:301-304 | At line 20 the locals are `foo, bar`. |
| CompletionExamples.LocalsAtLine23 | src/completion.rs:306-309 | At line 23 the locals are `foo, bar, i, v`. |
| CompletionExamples.LocalsAtLine27 | src/completion.rs:311-314 | At line 27 the locals are `foo, bar`. |
| CompletionExamples.UpvaluesTextScopes | src/completion.rs:317-331 | The scopes of the `upvalues` test text are the chunk's block (declaring `foo`) and the function body (declaring `a`, `fooing` and `foobaz`). |
| CompletionExamples.UpvaluesLocals | src/completion.rs:324-337 | At line 3 of the `upvalues` test the locals are `foo, a, fooing, foobaz`. |
| CompletionExamples.UpvaluesScenario | src/completion.rs:318-338 | For any globals among which `foobar` is the only name starting with `foo`, any result meeting the upvalue completion's contract for `foo` at line 3 is exactly `foo, foobar, foobaz, fooing`. |
| Editor.ParseBool | src/editor.rs:101-105 | Parsing succeeds exactly on the two words that `bool` displays as, and yields that boolean. |
| Editor.EvalSpecial | src/editor.rs:81-115 | `.help` prints the help text and keeps the format. `.format inspect` and `.format address` select those formats whatever follows. `.format comfytable` selects nested tables exactly when its third word is `true`. The format changes only when nothing is printed. The output is empty, the help text, "unknown subcommand" or "unknown command". Nothing is printed if and only if the words are `format` followed by `inspect`, `address` or `comfytable`. A `format` with a missing or other subcommand prints "unknown subcommand". No words, or a first word other than `help` and `format`, prints "unknown command". |
| Editor.Dispatch | src/editor.rs:59-70 | A line is a special command if and only if it starts with a dot. Any other line is handed to Lua unchanged. |
| Editor.FormatCommandSelects | src/editor.rs:93-108 | Every table format has a command that selects it, whatever the current format. |
| Editor.InitialFormatRestorable | src/editor.rs:50 | The starting format, nested tables, can be selected again with `.format comfytable true`. |
| Editor.ComfyTableFlagDefaultsOff | src/editor.rs:100-107 | `comfytable` with no flag, or with any flag other than `true`, turns nesting off. |
| Editor.EvalSpecialIdempotent | src/editor.rs:81-115 | Running a command twice leaves the same state and output as running it once. |
| Editor.OnlyThreeWordsMatter | src/editor.rs:82-112 | Two commands whose first three words agree do the same, whatever follows. |
| Editor.LeadingWhitespaceSkipped | src/editor.rs:82 | Whitespace between the dot and the command is ignored. |
| Editor.SpacingIrrelevant | src/editor.rs:82 | Any run of whitespace between words acts like one space. |
| Editor.HelpKeepsFormat | src/editor.rs:87-92 | `.help` prints the two help lines and keeps the format. |
| Editor.FormatAfter | src/editor.rs:54-77 | No contract of its own: the table format after the loop has read the given lines. `Editor.EvaluationKeepsFormat` and `Editor.LastFormatCommandWins` state its properties. |
| Editor.EvaluationKeepsFormat | src/editor.rs:54-77 | A session whose lines never start with a dot keeps its table format. |
| Editor.LastFormatCommandWins | src/editor.rs:54-77 | After a format command the session uses the selected format, whatever came before. |
| Config.Default | src/config.rs:25-35 | No contract of its own: the default configuration. `Config.DefaultExecutor` and `Config.DefaultReachable` state what it holds. |
| Config.AsString | src/config.rs:93 | No contract of its own: strings convert, nothing else does. `Config.ExecutorField` and `Config.TableFormatField` state the effect. |
| Config.AsPath | src/config.rs:111 | No contract of its own: a string as is, a number as Lua renders it, anything else fails. `Config.SystemLuaField` states the effect. |
| Config.AsUsize | src/config.rs:137 | No contract of its own: non-negative integers convert, nothing else does. `Config.HistorySizeField` states the effect. |
| Config.AsBoolean | src/config.rs:140 | No contract of its own: booleans convert, nothing else does. `Config.ColorOutputField` states the effect. |
| Config.Field | src/config.rs:73-84 | The check passes exactly when the conversion does. On failure the error names the value's Lua type, the field and the expected type. |
| Config.SetField | src/config.rs:86-147 | A successful assignment changes only the named field. An unknown key is reported as an invalid key. Every type error names the key and the value's type. |
| Config.Message | src/config.rs:73-142 | Every error the setter raises has its printed wording, except a value that does not convert to a path: that conversion words its own error. |
| Config.TypeErrorMessages | src/config.rs:73-140 | A wrongly typed value prints "invalid type '<type>' for <key>, expected <integer, bool or string>", with the expected type that key's conversion needs. |
| Config.OtherErrorMessages | src/config.rs:96-142 | An unknown executor or table format name prints a fixed message. A missing path prints "path '<path>' does not exist", and an unknown key prints "invalid key '<key>'". The setter leaves an error unworded exactly when the value does not convert to a path. |
| Config.ExecutorField | src/config.rs:92-103 | `executor` accepts exactly the strings `system` and `embedded`. Any other string is an invalid executor, and any non-string is a type error. |
| Config.SystemLuaField | src/config.rs:105-120 | `nil` clears the path. A string or number sets the path exactly when that path exists, and otherwise reports it as missing. Any other value does not convert to a path. |
| Config.TableFormatField | src/config.rs:122-134 | `table_format` accepts exactly `address`, `inspect` and `comfytable`. Any other string is an invalid format, and any non-string is a type error. |
| Config.HistorySizeField | src/config.rs:136-138 | `history_size` accepts exactly the non-negative integers. |
| Config.ColorOutputField | src/config.rs:139-141 | `color_output` accepts exactly the booleans. |
| Config.RunScript | src/config.rs:50-53 | No contract of its own: running the configuration file as a sequence of assignments to `manen`, the first error stopping it. `Config.RunScriptAppend` and `Config.DefaultReachable` state its properties. |
| Config.RunScriptAppend | src/config.rs:50-53 | A script run in two parts gives the same result as the whole. The second part starts from what the first left, and does not run once the first has failed. |
| Config.SetFieldUniform | src/config.rs:86-147 | Whether an assignment succeeds, and to which value, does not depend on the rest of the configuration. |
| Config.SettersCommute | src/config.rs:86-147 | Two successful assignments to different keys give the same configuration in either order. |
| Config.SetFieldIdempotent | src/config.rs:86-147 | Repeating a successful assignment changes nothing. |
| Config.DefaultReachable | src/config.rs:25-35 | A script that assigns the default values yields the default configuration from any configuration. |
| Config.DefaultExecutor | src/config.rs:25-35 | The default configuration runs the embedded interpreter, keeps 256 history entries, colours output and uses the inspect printer. |
| Config.GetExecutor | src/config.rs:59-70 | An error is possible only for the system executor with a path set, and the model's error records the path it tried to start. A system interpreter is always the configured path. |
| Config.ExecutorSelection | src/config.rs:59-70 | The embedded interpreter is used exactly when the executor is embedded or no path is set. The system interpreter is used exactly when it is chosen, a path is set and it starts. |

## Left out

- The Lua parser and its `TextRange` arithmetic: the syntax tree is an input. The test trees are built by hand, with the block ranges described above.
- Member completion, and the `globals()` reflection over a live Lua state: the globals are an input list.
- The `dbg!` output of `resolve_scopes`, `refresh_tree`'s storage of the line, and the caching of the tree in the completer: these are side effects with no bearing on the result.
- Completion.CurrentIdentifier: this is the shipped stub, which always answers `None`. `complete` therefore never suggests anything, and the model states that.
- Printing, Lua evaluation (`eval`), the line editor, the prompt and the Ctrl-C/Ctrl-D handling of `run`: these are I/O. The model returns the printed text instead.
- The error message wording of the `PathBuf` conversion: the model reports only the value's type name.
- The conversion of the key: the handler takes its key as a `String`, so Lua converts a number key to its text first (`manen[1] = x` reports "invalid key '1'"), and any other type of key is rejected before the handler runs. The model's keys are already strings.
- Floating-point rendering: a Lua number carries its rendered text.
- `as_string_lossy` on non-UTF-8 strings: configuration strings are sequences of characters.
- `Config::load`, the project directories and running the configuration file: these are file-system I/O. The configuration script is modelled as its sequence of assignments.
- The construction of the executors, and `SystemLuaError`'s details: starting a system Lua is an oracle parameter.
- The `usize` width of `history_size`: it is taken as at least 64 bits, so every non-negative `i64` fits.
- `src/format.rs`, `src/parse.rs`, `src/highlight.rs`, `src/validator.rs`, `src/hinter.rs`, `src/lua.rs` and `src/main.rs` are not part of this model.
