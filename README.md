# gitsh command-language front end, modelled in Dafny

gitsh is an interactive shell for git. This project models four pieces of its front end and proves properties of them:

- **The session variable store** (`Gitsh::Environment`), modelled as module `Environment`, class `Env`.
  - `Env` holds a `map<string, string>` field of local bindings, which `[]=` and `git_command=` update in place.
  - Lookups go through three tiers, highest priority first: computed ("magic") variables, local bindings, and git configuration. A caller's default is consulted only at the last tier. A name found at no tier is an `UnsetVariableError`.
  - The derived views are modelled too: all variable names (`uniq.sort`), the dotted local bindings, and the repository aliases merged with local `alias.*` names (`sort`).
  - Ruby's string ordering and its two sorts are in `StringOrder`.
- **The grammar** (`Gitsh::Parser`), modelled as modules `Ast`, `Parser`, `ParserSteps`, `ParserRoundTrip` and `ParserFields`.
  - The input is a list of lexer tokens. The output is a control-flow tree (`Noop`, `LazyCommand`, `Multi`, `Or`, `And`) whose commands hold argument ASTs (string, variable, subshell, composite, brace expansion).
  - The parser is recursive descent with precedence climbing for the four left-associative operators, newline < `;` < `||` < `&&`.
  - `ParserRoundTrip` renders trees back to tokens and proves that every well-formed tree is parsed back from its rendering. Together with the parser's own postconditions, this shows the trees the parser builds are exactly the well-formed ones.
  - `ParserFields` proves the two rules that rendering alone does not reach: a run of WORD tokens is one string, their concatenation; and empty brace fields (before, between or after commas) are empty-string options, with braces accepted only when some field holds an argument, or when they are empty.
  - `ParserExamples` derives the precedence, associativity and grouping facts from that.
- **Argument expansion**, modelled as module `Expansion`, with `GlobbingExamples` for the cases from the brace-expansion integration tests.
  - A composite argument stands for the ordered cross product of its parts, with the rightmost part varying fastest.
  - A brace expansion stands for its options' words, flattened in order.
- **Command dispatch** (`Gitsh::Commands::Factory`), modelled as module `Factory`.
  - The command word is split with `/^([:!])?(.+)$/`. `Match` models this as Ruby matches it, with `^` and `$` as line anchors.
  - The prefix selects the internal, shell or git command variant.
  - Nil arguments are dropped, and the result is wrapped in `ErrorHandler`.
- **Shell-argument escaping** (`Gitsh::Commands::ShellCommand`), modelled as module `ShellCommand`.
  - Every argument character outside a fixed whitelist gets one backslash in front of it. The backslash is the escape character of the POSIX Shell Command Language (POSIX.1-2017, XCU section 2.2.1).
  - The line is assembled into the argv `['/bin/sh', '-c', line]`.
  - `ShellReading` models how `/bin/sh -c` splits such a line into fields. With it, the project states which arguments reach the shell intact, and which whitelisted characters (backslash, newline) do not.

`Wrappers` holds the `Option` and `Result` types.

## Model

| member | source | states |
|---|---|---|
| Environment.Lookup | lib/gitsh/environment.rb:48-56 | fetch fails exactly when the name is in no tier and no default is given, and then with the message `Variable '<name>' is not set`; otherwise the value comes from one of the tiers or is the default |
| Environment.LookupIsOverlay | lib/gitsh/environment.rb:48-56 | fetch reads the overlay in which magic variables override local bindings and local bindings override git config; the default is used only when the overlay lacks the name |
| Environment.LookupAfterBind | lib/gitsh/environment.rb:44-53 | after `env[k] = v`, fetching `k` gives `v` whenever `k` is not a magic variable, whatever git config holds for `k` |
| Environment.LookupOtherAfterBind | lib/gitsh/environment.rb:44-53 | binding one name does not change the lookup of any other name |
| Environment.MagicShadowsLocal | lib/gitsh/environment.rb:49-50 | a magic variable shadows a local binding of the same name: binding it does not change what fetch returns |
| Environment.LocalShadowsConfig | lib/gitsh/environment.rb:50-51 | a local binding shadows git config: with any other config, fetch gives the same result |
| Environment.DefaultOnlyAtLastTier | lib/gitsh/environment.rb:48-53 | when any tier holds the name, passing a default changes nothing |
| Environment.DottedBindings | lib/gitsh/environment.rb:66-68 | `config_variables` holds exactly the local bindings whose name contains `.`, with their values |
| Environment.DottedBindingsAfterBind | lib/gitsh/environment.rb:66-68 | binding a dotted name adds or replaces it in `config_variables`; binding an undotted name leaves them unchanged |
| Environment.LocalAliases | lib/gitsh/environment.rb:130-134 | `a` is a local alias exactly when `alias.a` is locally bound |
| Environment.Env.constructor | lib/gitsh/environment.rb:13-24 | a new environment has no local bindings, and the given magic variables, config and repository aliases |
| Environment.Env.Fetch | lib/gitsh/environment.rb:48-56 | `fetch` looks the key's text up in magic variables, then local bindings, then git config, taking the first tier that holds it; with no tier and no default it fails with `Variable '<name>' is not set` (the tier lemmas above state the consequences) |
| Environment.Env.ConfigVariables | lib/gitsh/environment.rb:66-68 | `config_variables` holds exactly the local bindings whose name contains `.`, with their values (see `DottedBindings` and `DottedBindingsAfterBind`) |
| Environment.Env.Set | lib/gitsh/environment.rb:44-46 | `[]=` binds the key's text, so a String key and a Symbol key with the same text then fetch the new value (unless it is magic); every other name's lookup is unchanged |
| Environment.Env.GitCommand | lib/gitsh/environment.rb:32-38 | `git_command(true)` is `/usr/bin/env git`; `git_command` is `gitsh.gitCommand` when that is set at any tier, otherwise `/usr/bin/env git` |
| Environment.Env.SetGitCommand | lib/gitsh/environment.rb:40-42 | `git_command=` binds `gitsh.gitCommand` locally, after which `git_command` returns it unless a magic variable of that name exists; `git_command(true)` is still the default |
| Environment.Env.AvailableVariables | lib/gitsh/environment.rb:58-64 | `available_variables` is strictly sorted (so has no duplicates) and holds exactly the names of the magic, local and config tiers |
| Environment.Env.GitAliases | lib/gitsh/environment.rb:122-124 | `git_aliases` is sorted and, as a multiset, is the repository aliases plus the local aliases (duplicates kept) |
| Environment.Env.Copy | lib/gitsh/environment.rb:26-30 | a copy is a new object with the same tiers and an equal but separate map of bindings |
| Environment.AssignInCopy | lib/gitsh/environment.rb:26-30 | assigning in a copy leaves the original's bindings unchanged |
| StringOrder.SortUnique | lib/gitsh/environment.rb:58-64 | `uniq.sort` of a set of names is strictly sorted, as long as the set, and holds exactly its elements |
| StringOrder.SortUniqueMultiset | lib/gitsh/environment.rb:58-64 | `uniq.sort` holds each name exactly once |
| StringOrder.Sort | lib/gitsh/environment.rb:122-124 | `sort` returns a sorted permutation of its input |
| StringOrder.Insert | lib/gitsh/environment.rb:122-124 | inserting into a sorted list keeps it sorted and adds exactly the new element |
| StringOrder.SortedIsUnique | lib/gitsh/environment.rb:122-124 | any two sorted arrangements of the same multiset are equal, so the result of `sort` does not depend on the input order |
| StringOrder.LeTotal | lib/gitsh/environment.rb:58-64 | Ruby's string comparison orders every pair of strings |
| StringOrder.LeAntisymmetric | lib/gitsh/environment.rb:58-64 | two strings that compare both ways are equal |
| StringOrder.LeTransitive | lib/gitsh/environment.rb:58-64 | string comparison is transitive |
| StringOrder.LeastExists | lib/gitsh/environment.rb:58-64 | every non-empty set of names has a least element |
| Factory.Compact | lib/gitsh/commands/factory.rb:23 | `args.compact` is no longer than the arguments and holds exactly the non-nil ones |
| Factory.CompactConcat | lib/gitsh/commands/factory.rb:23 | compacting distributes over concatenation, so the kept arguments keep their order |
| Factory.CompactAllPresent | lib/gitsh/commands/factory.rb:23 | without nils, compacting returns the arguments unchanged |
| Factory.FirstLine | lib/gitsh/commands/factory.rb:10 | the line the regex works on is a newline-free prefix of the word, ended by a newline or by the word's end |
| Factory.SplitLine | lib/gitsh/commands/factory.rb:10 | on one line, `([:!])?` captures a leading `:` or `!` only when `(.+)` still has a character after it, and the name is the rest of the line; otherwise there is no prefix and the name is the whole line |
| Factory.Match | lib/gitsh/commands/factory.rb:10-22 | when the regex matches, the name is non-empty and free of newlines, and the prefix is nil, `:` or `!` (`MatchIffNonNewline` states when it matches, `MatchSkipsNewlines` what it gives) |
| Factory.Instantiate | lib/gitsh/commands/factory.rb:11-14 | `COMMAND_CLASS_BY_PREFIX`: nil gives the git command, `:` the internal command and `!` the shell command, each holding the name and arguments as given; no other prefix is in the table |
| Factory.MatchIffNonNewline | lib/gitsh/commands/factory.rb:10 | the regex matches exactly when the word has a character other than a newline; the empty word does not match |
| Factory.Build | lib/gitsh/commands/factory.rb:17-40 | the result is `ErrorHandler` around a command holding the compacted arguments; for a word without newlines: `:x…` is the internal command `x…`, `!x…` the shell command `x…`, and any other word (a lone `:` or `!` included) the git command named by the whole word |
| Factory.DoubleColon | lib/gitsh/commands/factory.rb:10-14 | `::x` is the internal command `:x` |
| Factory.BareBang | lib/gitsh/commands/factory.rb:10-14 | a lone `!` is the git command `!` |
| Factory.NilArgumentsDropped | lib/gitsh/commands/factory.rb:21-28 | `!ls` with arguments `-l`, nil, `a b` is the shell command `ls` with `-l`, `a b` |
| Factory.MatchSkipsNewlines | lib/gitsh/commands/factory.rb:10 | for any number of leading newlines followed by a line that starts with another character, the regex gives the two groups of that line's text up to its newline |
| Factory.BuildUsesFirstLine | lib/gitsh/commands/factory.rb:10-22 | a word of several lines builds the same command as its first non-empty line, which has no newline, so `Build`'s one-line contract gives the command of every word that matches |
| Factory.WholeWordIsFirstLine | lib/gitsh/commands/factory.rb:10 | a word without newlines is its own first line |
| Factory.LeadingNewlineSkipped | lib/gitsh/commands/factory.rb:10-22 | a newline followed by `!reboot` builds the shell command `reboot`: `^` matches after the newline |
| Factory.LaterLinesDropped | lib/gitsh/commands/factory.rb:10-22 | for `:set`, a newline and `x`, the text after the first line is dropped: the internal command `set` |
| ShellCommand.Escape | lib/gitsh/commands/shell_command.rb:31-35 | the escaped argument is longer by the number of characters outside the whitelist, and is empty exactly when the argument is |
| ShellCommand.EscapeAll | lib/gitsh/commands/shell_command.rb:31-35 | `arg_values` escapes every argument and keeps their number and order |
| ShellCommand.ShellArgv | lib/gitsh/commands/shell_command.rb:23-29 | the argv has exactly three elements: `/bin/sh`, `-c`, and the command name followed by the escaped arguments, joined by single spaces |
| ShellCommand.EscapeConcat | lib/gitsh/commands/shell_command.rb:33 | escaping distributes over concatenation |
| ShellCommand.CountUnsafeConcat | lib/gitsh/commands/shell_command.rb:33 | the number of unsafe characters is additive over concatenation |
| ShellCommand.EscapeSafeIsIdentity | lib/gitsh/commands/shell_command.rb:6-8 | an argument made only of whitelisted characters passes through unchanged |
| ShellCommand.EscapeAt | lib/gitsh/commands/shell_command.rb:6-8 | escaping works per character: each character appears at its offset in the output, as itself if whitelisted and otherwise after exactly one backslash |
| ShellCommand.UnescapeEscape | lib/gitsh/commands/shell_command.rb:31-35 | deleting each backslash that precedes a non-whitelisted character recovers the argument |
| ShellCommand.EscapeInjective | lib/gitsh/commands/shell_command.rb:31-35 | different arguments escape differently |
| ShellCommand.EscapedUnsafeFollowsBackslash | lib/gitsh/commands/shell_command.rb:31-35 | every non-whitelisted character in the output directly follows a backslash |
| ShellReading.ReadEscaped | lib/gitsh/commands/shell_command.rb:31-35 | the shell reads an escaped argument without backslashes or newlines back as one field equal to the argument |
| ShellReading.FieldsOfJoined | lib/gitsh/commands/shell_command.rb:23-29 | space-joined escaped arguments are read back as exactly those arguments, in order |
| ShellReading.ShellReadsArguments | lib/gitsh/commands/shell_command.rb:23-35 | for a plain command name and non-empty arguments without backslashes or newlines, `/bin/sh -c` reads exactly the name followed by each argument: every other character has been made inert |
| ShellReading.CommandLineOfOne | lib/gitsh/commands/shell_command.rb:23-29 | the line for one argument is the unescaped name, a space, and the escaped argument |
| ShellReading.CommandLineOfTwo | lib/gitsh/commands/shell_command.rb:23-29 | the line for two arguments is the name and the two escaped arguments, separated by single spaces |
| ShellReading.FieldsAfterWord | lib/gitsh/commands/shell_command.rb:23-29 | a plain leading word is one field, and reading resumes after the space |
| ShellReading.BackslashBeforeDollarIsDoubled | lib/gitsh/commands/shell_command.rb:6-8 | the backslash is whitelisted: in an argument that starts with a backslash and then `$`, the backslash is kept and the `$` gets a second one |
| ShellReading.BackslashLeavesDollarActive | lib/gitsh/commands/shell_command.rb:6-8 | so the shell reads a quoted backslash followed by an unquoted `$`, which it may expand |
| ShellReading.NewlineStopsReading | lib/gitsh/commands/shell_command.rb:6-8 | a newline in an argument without backslashes reaches the shell unquoted, and no field is read past it |
| ShellReading.NewlineEndsCommand | lib/gitsh/commands/shell_command.rb:6-8 | the newline is whitelisted, so an argument containing one ends the shell command there |
| ShellReading.EmptyArgumentIsLost | lib/gitsh/commands/shell_command.rb:23-29 | an empty argument leaves two adjacent spaces, and the shell reads no field for it |
| ShellReading.GlobArgv | lib/gitsh/commands/shell_command.rb:7 | an argument of whitelisted characters, glob characters included, appears in the argv unescaped |
| ShellReading.GlobReachesShell | spec/integration/argument_globbing_spec.rb:60-74 | such an argument (as in `!cat foo?.txt`) reaches the shell unquoted as its own field, so the shell can glob it |
| Parser.Precedence | lib/gitsh/parser.rb:13-16 | each of the four operators has a precedence level from 1 to 4 (their order is `PrecedenceOrder`) |
| Parser.PrecedenceOrder | lib/gitsh/parser.rb:13-16 | later `left` lines bind tighter: newline < `;` < `\|\|` < `&&` |
| Parser.Node | lib/gitsh/parser.rb:26-29 | an operator builds a binary node with the two operands in order; newline and `;` both build `Multi` |
| Parser.Optional | lib/gitsh/parser.rb:19 | an optional token is dropped exactly when it is next |
| Parser.ParseWord | lib/gitsh/parser.rb:77 | `WORD+` consumes the whole run of WORD tokens (its value is stated by `ParserFields.ParseWordRun`) |
| Parser.ParseProgram | lib/gitsh/parser.rb:18-21 | a `program` is `Noop` or a well-formed tree of commands |
| Parser.ParseCommands | lib/gitsh/parser.rb:23-30 | `commands` consumes at least one token and builds a well-formed tree with no `Noop` |
| Parser.ParseOperators | lib/gitsh/parser.rb:26-29 | applying operators keeps the tree well formed |
| Parser.ParsePrimary | lib/gitsh/parser.rb:24-25 | a command or a parenthesised group consumes at least one token and is well formed |
| Parser.ParseArgumentList | lib/gitsh/parser.rb:36-39 | an argument list holds at least one argument, each well formed |
| Parser.ParseMoreArguments | lib/gitsh/parser.rb:36-39 | later arguments are appended after the earlier ones |
| Parser.ParseArgument | lib/gitsh/parser.rb:41-46 | an argument is well formed, is followed by no further part, and begins with a string part exactly when its first token is a WORD |
| Parser.ParsePart | lib/gitsh/parser.rb:48-53 | a part is never a composite; it is a string exactly when it starts with a WORD, and then no WORD follows it |
| Parser.ParseBrace | lib/gitsh/parser.rb:55-62 | a brace expansion always has at least one well-formed option |
| Parser.ParseFields | lib/gitsh/parser.rb:64-75 | the comma-separated fields are a non-empty list whose present fields are well formed (which token lists give which fields is stated by `ParserFields.FieldsWithEmptiesRoundTrip`) |
| Parser.Options | lib/gitsh/parser.rb:69-74 | each empty field becomes an empty-string option and every other field is kept, in order |
| Parser.Parse | lib/gitsh/parser.rb:18-21 | every parsed tree is well formed: commands have at least one argument, composites are right-nested, adjacent words are merged, and brace expansions are non-empty |
| ParserRoundTrip.ParseRender | lib/gitsh/parser.rb:18-79 | every well-formed tree is the parse of its rendering, which uses parentheses only where precedence needs them |
| ParserRoundTrip.ParsedTreesAreWellFormed | lib/gitsh/parser.rb:18-79 | a tree is the parse of some token list exactly when it is well formed |
| ParserRoundTrip.ProgramRoundTrip | lib/gitsh/parser.rb:18-21 | a rendered program followed by the end of input or a subshell end is read back whole |
| ParserRoundTrip.CommandsRoundTrip | lib/gitsh/parser.rb:23-30 | a rendered tree is read whole, and the operator loop of the calling level continues after it |
| ParserRoundTrip.BinaryRoundTrip | lib/gitsh/parser.rb:26-29 | the same for a binary node: left operand, operator, right operand of higher precedence |
| ParserRoundTrip.OperandRoundTrip | lib/gitsh/parser.rb:25 | an operand in parentheses is read back as the inner tree |
| ParserRoundTrip.ArgumentsRoundTrip | lib/gitsh/parser.rb:36-39 | space-separated rendered arguments are read back as the same list |
| ParserRoundTrip.MoreArgumentsRoundTrip | lib/gitsh/parser.rb:38 | each `SPACE argument` appends that argument |
| ParserRoundTrip.ArgRoundTrip | lib/gitsh/parser.rb:41-46 | a rendered well-formed argument is read back as itself |
| ParserRoundTrip.PartRoundTrip | lib/gitsh/parser.rb:48-53 | a rendered part is read back as itself |
| ParserRoundTrip.SubshellRoundTrip | lib/gitsh/parser.rb:79 | a rendered subshell is read back with its program |
| ParserRoundTrip.BraceRoundTrip | lib/gitsh/parser.rb:55-62 | a rendered brace expansion is read back with its options |
| ParserRoundTrip.FieldsRoundTrip | lib/gitsh/parser.rb:64-68 | comma-separated rendered options are read back as present fields |
| ParserRoundTrip.OperatorToken | lib/gitsh/parser.rb:26-29 | each binary node has an operator token of its precedence that builds it |
| ParserFields.ParseWordRun | lib/gitsh/parser.rb:77 | a run of WORD tokens, whatever follows it, is read whole as the concatenation of their texts (`words.inject(:+)`) |
| ParserFields.WordRunIsOneString | lib/gitsh/parser.rb:49 | such a run is a single string part, not a composite of several |
| ParserFields.FieldsWithEmptiesRoundTrip | lib/gitsh/parser.rb:64-75 | every list of fields, empty ones included, is read back from its comma-separated rendering: an empty field at the start, between two commas or at the end is read as empty |
| ParserFields.LastField | lib/gitsh/parser.rb:65 | the last field, empty or holding an argument, is read back before a token that is neither a comma nor the start of a part |
| ParserFields.BraceFields | lib/gitsh/parser.rb:55-75 | braces around any fields parse exactly when some field holds an argument or nothing is between them; the options are then the fields in order, each empty field an empty-string option (`{}` one empty option), and all-empty fields such as `{,}` are rejected |
| ParserExamples.EmptyInputIsNoop | lib/gitsh/parser.rb:20 | empty input and a lone SPACE are `Noop` |
| ParserExamples.TrailingSemicolonAddsNoNode | lib/gitsh/parser.rb:19 | surrounding spaces and one trailing `;` add no node to any tree |
| ParserExamples.NewlineJoinsLines | lib/gitsh/parser.rb:26 | a newline joins any two command lines into `Multi` with no parentheses on either side |
| ParserExamples.GroupAddsNoNode | lib/gitsh/parser.rb:25 | a parenthesised group followed by a SPACE is the inner tree itself |
| ParserExamples.SemicolonIsLeftAssociative | lib/gitsh/parser.rb:14 | `a; b; c` is `Multi(Multi(a, b), c)` |
| ParserExamples.AndBindsTighterThanOr | lib/gitsh/parser.rb:15-16 | `a \|\| b && c` is `Or(a, And(b, c))` |
| ParserExamples.AndBeforeOr | lib/gitsh/parser.rb:15-16 | `a && b \|\| c` is `Or(And(a, b), c)` |
| ParserExamples.OrBindsTighterThanSemicolon | lib/gitsh/parser.rb:14-15 | `a; b \|\| c` is `Multi(a, Or(b, c))` |
| ParserExamples.SemicolonBindsTighterThanNewline | lib/gitsh/parser.rb:13-14 | `a`, newline, `b; c` is `Multi(a, Multi(b, c))` |
| ParserExamples.GroupOverridesPrecedence | lib/gitsh/parser.rb:25 | `(a \|\| b) && c` is `And(Or(a, b), c)` |
| ParserExamples.ArgumentsInOrder | lib/gitsh/parser.rb:32-39 | `a $b c` is one `LazyCommand` of its three arguments in input order |
| ParserExamples.SpaceBeforeOperatorRejected | lib/gitsh/parser.rb:23-39 | a SPACE token before an operator is a parse error |
| Expansion.Prefixed | spec/integration/argument_globbing_spec.rb:5-12 | a word in front of each of a list of words: same length, entry by entry |
| Expansion.Cross | spec/integration/argument_globbing_spec.rb:14-21 | the product of two word lists has the product of their lengths |
| Expansion.CrossAt | spec/integration/argument_globbing_spec.rb:14-21 | entry `i * \|ys\| + j` of the product is `xs[i] + ys[j]`: the rightmost part varies fastest |
| Expansion.CrossConcat | spec/integration/argument_globbing_spec.rb:14-21 | the product distributes over concatenation on the left |
| Expansion.CrossAssociative | lib/gitsh/parser.rb:41-46 | the product is associative, so right-nested composites give the same words as any other nesting |
| Expansion.Expand | lib/gitsh/parser.rb:41-75 | an argument has words exactly when every variable it refers to is set |
| Expansion.ExpandOptions | lib/gitsh/parser.rb:55-75 | a brace's options have words exactly when all their variables are set |
| Expansion.ExpandOptionsConcat | spec/integration/argument_globbing_spec.rb:32-39 | options flatten in order: the words of `o1 + o2` are those of `o1` followed by those of `o2` |
| GlobbingExamples.PlainOptions | spec/integration/argument_globbing_spec.rb:5-12 | plain-word options stand for their words, in order |
| GlobbingExamples.ParsesAsOneArgument | lib/gitsh/parser.rb:32-46 | the rendering of a well-formed argument alone is a command of that one argument |
| GlobbingExamples.BraceInsideWordParses | spec/integration/argument_globbing_spec.rb:5-12 | `h{i,o}p` is one argument: `h`, then a brace of `i` and `o`, then `p` |
| GlobbingExamples.BraceInsideWordExpands | spec/integration/argument_globbing_spec.rb:5-12 | `h{i,o}p` stands for `hip hop` |
| GlobbingExamples.TwoBracesParse | spec/integration/argument_globbing_spec.rb:14-21 | `1{a,b}{x,y,z}`, for any words, is a word followed by a right-nested composite of the two braces |
| GlobbingExamples.TwoBracesExpand | spec/integration/argument_globbing_spec.rb:14-21 | it stands for `1ax 1ay 1az 1bx 1by 1bz`, for any words in those places |
| GlobbingExamples.EmptyOptionsParse | spec/integration/argument_globbing_spec.rb:23-30 | `git{,,sh,,}`, for any words, is a word followed by a brace of five options, four of them empty strings |
| GlobbingExamples.EmptyOptionsExpand | spec/integration/argument_globbing_spec.rb:23-30 | it stands for `git git gitsh git git` |
| GlobbingExamples.EmptyFields | lib/gitsh/parser.rb:64-75 | the fields of `{,,sh,,}` are two empty fields, the word and two empty fields |
| GlobbingExamples.NestedBraceParses | spec/integration/argument_globbing_spec.rb:32-39 | `f{{e,i,o}e,um}` has a brace nested in the first option |
| GlobbingExamples.NestedBraceExpands | spec/integration/argument_globbing_spec.rb:32-39 | it stands for `fee fie foe fum` |
| GlobbingExamples.EscapedCommaParses | spec/integration/argument_globbing_spec.rb:41-48 | in `1{x,y\,z}2` the escaped comma is a WORD joined to its neighbours, giving two options |
| GlobbingExamples.EscapedCommaExpands | spec/integration/argument_globbing_spec.rb:41-48 | it stands for `1x2 1y,z2` |
| GlobbingExamples.EscapedBracesParse | spec/integration/argument_globbing_spec.rb:50-57 | in `1{x,\{,\}}2` the escaped braces are words: a brace of three plain options |
| GlobbingExamples.EscapedBracesExpand | spec/integration/argument_globbing_spec.rb:50-57 | it stands for `1x2 1{2 1}2` |
| GlobbingExamples.EmptyBraces | lib/gitsh/parser.rb:56-58 | `{}` is a brace expansion of one empty-string option, which stands for the empty word |

## Left out

- Lexer: the lexer is not part of this model. The parser works on an abstract token list. The examples take it that the lexer turns an escaped comma or brace into a WORD and emits no SPACE around operators.
- Parser: RLTK's LALR tables are not modelled. The grammar is modelled by a hand-written parser over the same productions.
- Parser.Parse: a parse error is a bare `ParseError`. The position and message RLTK reports are not modelled.
- Environment I/O and repository pass-throughs are not modelled: the input, output and error streams, `print`, `puts`, `puts_error`, `tty?`, `repo_*`, `repo_config_color`, `git_commands` and the config directory.
- Environment tiers: the magic-variable provider and the repository (`MagicVariables`, `GitRepository`) are not part of this model. Each environment is given fixed maps for them and a fixed list of repository aliases.
- Environment.Env.Fetch: the `force_default_git_command` flag passed to `repo.config` is not modelled. Git configuration is one map, and only `Env.GitCommand` models the forced default.
- Environment.Env.AvailableVariables: states the set of names and the order, not how the three tiers produce their name lists.
- StringOrder: strings are compared character by character, by code point. Ruby compares the bytes of the encoding; for UTF-8 strings the byte order is the code-point order, so the two differ only for other encodings or invalid byte sequences, which are not modelled.
- Factory.Build: a command word that the regex does not match (one made only of newlines, or empty) is a precondition. The source then fails with a nil error that the model does not reproduce.
- Factory: `GitCommand`, `InternalCommand`, `ShellCommand`, `ArgumentList` and `ErrorHandler` are opaque constructors holding what the factory passes them.
- ShellCommand: `ShellCommand#execute` and `ShellCommandRunner` are left out, since they spawn a process. The model stops at the argv.
- ShellCommand: argument values (`args.values(env)`) are given as strings. Their evaluation is in `Expansion`.
- Expansion: the code that evaluates composite and brace arguments is not part of this model. Its behaviour is defined from spec/integration/argument_globbing_spec.rb.
- Expansion: a subshell's output is a given function of its program, since running it spawns nested commands.
- Expansion: a variable argument stands for its value as one word.
- Expansion.Expand: variables are looked up in one given map. For a gitsh session that map is the overlay `config + variables + magic` of the environment's tiers, which `Environment.LookupIsOverlay` proves is what `fetch` reads. A missing name is `None` here, where `fetch` raises `UnsetVariableError`.
- ShellReading: covers only the part of `/bin/sh` word reading that the escaping is about. Any unquoted character outside the whitelist, and an unquoted backslash at the end of the line, is reported as "could have a meaning" (`None`), not interpreted. Pathname expansion (the filesystem effect of `?`, `*`, `[ ]`) is not modelled.
- ShellReading.ShellReadsArguments: reads only fields, not the shell's grammar. The command name is joined into the line unescaped (lib/gitsh/commands/shell_command.rb:27), so a name such as `!` (from the word `!!x`) or a reserved word such as `if` changes how `/bin/sh` parses the line. The lemma reads the line as fields only, so it does not cover this.
- Control flow: the evaluation of `Commands::Tree` (`Multi`, `Or`, `And`) and of `LazyCommand` is not modelled. The trees are data.
- lib/gitsh/prompt_color.rb is not modelled: it chooses terminal colours from global state.
