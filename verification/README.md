# apf evaluator — a Dafny model

This project models the evaluator of abbs-rs's `apf` module (`src/apf/mod.rs`).
The evaluator reads a restricted shell script and reduces it to a flat
name → value context, giving shell-style variable interpolation without
running a shell. It has two parts:

- **Command walker** (`get_args_top_level`, `get_args_listable`,
  `get_args_pipeable`, `get_args_simple`, and the `parse` loop). It walks
  each top-level command of an already parsed syntax tree and refuses jobs,
  pipes, compound commands, function definitions, bare command words and
  redirects. It commits `NAME=value` assignments to the context in order.
- **Word evaluator** (`get_complex_word_as_string`, `get_word_as_string`,
  `get_simple_word_as_string`, `get_parameter_as_string`, `get_subst_origin`,
  `get_subst_result`). It turns literal, escaped, colon, single-quoted,
  double-quoted and concatenated words, plus `$NAME` references, into
  strings. It only reads the context. It also dispatches the three
  substitution operators `${p/pat/rep}`, `${p//pat/rep}` and
  `${p:offset:length}`.

Layout:

| file | module | contents |
|---|---|---|
| `wrappers.dfy` | `Wrappers` | `Option`, and a `Result` that supports `:-` (standing for Rust's `?`) |
| `syntax.dfy` | `Syntax` | the syntax-tree node shapes the evaluator consumes |
| `apf.dfy` | `Apf` | `Context` (`map<string, string>`), `ParseErrorInfo`, `Effect`, and the `Substitution` primitives |
| `words.dfy` | `Words` | the word evaluator |
| `commands.dfy` | `Commands` | the command walkers and the top-level `Parse` loop |
| `word_properties.dfy` | `WordProperties` | lemmas about leaf words, quoting, concatenation and substitution dispatch |
| `references.dfy` | `References` | the variables a word reads; frame and "unbound reference fails" lemmas |
| `command_properties.dfy` | `CommandProperties` | lemmas about assignment order, AND/OR lists, refused shapes and the top-level loop |

Modelling choices:

- The source mutates the caller's context through `&mut`. Each walker here
  returns an `Effect(context, result)`. After an error, `context` holds
  everything committed before the error, as the caller's map would.
- The `parse` loop reads commands from the shell parser one at a time. Here
  that input is a `seq<Result<TopLevelCommand, string>>`. Each item is a
  command or the parser's error text, and the end of the sequence means end
  of input. A parser error becomes `InvalidSyntax` carrying that text
  (src/apf/mod.rs:64-74).
- `substitution::get_replace` and `substitution::get_substring` are defined
  outside this module. They are the two function-valued fields of the
  `Substitution` record, passed to every evaluator as a parameter, so
  nothing is assumed about them. The model proves the dispatch around them.
- Error reasons are the source's exact strings, typos included.
  `get_subst_origin` formats the parameter with the shell parser's display
  form (src/apf/mod.rs:293-296). That rendering belongs to the parser and is
  one function here, `Syntax.VarDisplay`, which writes a variable as
  `${name}`.

Behaviour a reader might not expect:

- The context is a `HashMap`, so it has no insertion order (src/apf/mod.rs:9).
- Within an AND/OR list every member runs, even after one has failed. The
  error reported is the first one in list order (src/apf/mod.rs:105-120).
  The walk is not fail-fast there. `&&` and `||` are treated alike.
- A bare `$UNDEFINED` fails with the reason "Param variable not found.",
  which does not name the variable (src/apf/mod.rs:260-262). Only the
  origin of a substitution is reported by name.
- A compound command is refused with the reason "Redirection not allowed."
  (src/apf/mod.rs:146-148).

## Model

| member | source | states |
|---|---|---|
| `Words.ParameterAsString` | src/apf/mod.rs:271-284 | a variable parameter yields `Some` of its bound value exactly when it is bound and `None` otherwise; every special or positional parameter is `InvalidSyntax("Unsupported parameter.")` |
| `Words.SimpleWordAsString` | src/apf/mod.rs:243-269 | literal, escaped and colon words always evaluate; a `$` parameter evaluates exactly when it is a bound variable; glob and tilde tokens never evaluate |
| `Words.SimpleWordsAsString` | src/apf/mod.rs:231-237 | the parts of a double-quoted word evaluate together exactly when each part evaluates on its own |
| `Words.WordAsString` | src/apf/mod.rs:224-241 | single-quoted text always evaluates; a simple word evaluates when its simple word does; a double-quoted word evaluates exactly when every part does |
| `Words.WordsAsString` | src/apf/mod.rs:212-218 | the parts of a concatenation evaluate together exactly when each part evaluates on its own |
| `Words.ComplexWordAsString` | src/apf/mod.rs:206-222 | a complex word evaluates exactly when its word, or every part of its concatenation, evaluates; the literal re-wrap never adds a failure |
| `Words.SubstResult` | src/apf/mod.rs:302-350 | a failing origin decides the result; with a good origin and no operator text the result is `InvalidSyntax("No substring command provided")`; a substitution succeeds only on a bound variable with an operator text that itself evaluates |
| `Words.SubstOrigin` | src/apf/mod.rs:286-300 | a substitution's origin succeeds exactly for a bound variable and is its value; an unbound variable is a `ContextError` naming it; a non-variable parameter is `InvalidSyntax` |
| `WordProperties.VerbatimWords` | src/apf/mod.rs:228-257 | literal text and single-quoted text evaluate to themselves; the colon token evaluates to `":"` |
| `WordProperties.EscapedWords` | src/apf/mod.rs:250-256 | an escaped newline evaluates to the empty string; any other escaped text evaluates to itself, unchanged |
| `WordProperties.UnsupportedWords` | src/apf/mod.rs:265-282 | glob and tilde tokens, and parameters other than plain variables, are `InvalidSyntax` with the source's reasons |
| `WordProperties.VariableReference` | src/apf/mod.rs:258-300 | `$X` is `X`'s value when bound. When `X` is unbound it is a `ContextError`, never an empty string. A substitution on an unbound variable is a `ContextError` naming it, whatever its operator text |
| `WordProperties.SubstDispatch` | src/apf/mod.rs:302-345 | the origin is resolved first and its error wins. Next, a missing operator text is `InvalidSyntax` and an operator text that fails passes its error on. Otherwise `${p/…}` is `replace(origin, text, false)`, `${p//…}` is `replace(origin, text, true)` and `${p:…}` is `substring(origin, text)` |
| `WordProperties.DoubleQuotedAppend` | src/apf/mod.rs:231-237 | double-quoted text over `ws1 + ws2` is the text over `ws1` followed by the text over `ws2`, and the first error in that order wins |
| `WordProperties.DoubleQuotedSingleton` | src/apf/mod.rs:231-237 | a single simple word inside double quotes evaluates as it does alone |
| `WordProperties.DoubleQuotedFirstError` | src/apf/mod.rs:231-237 | double-quoted text fails exactly when one of its parts fails, and then with the error of the first failing part |
| `WordProperties.ConcatIsJoin` | src/apf/mod.rs:210-221 | re-wrapping the joined parts of a concatenation as a literal word changes nothing, so a concatenation evaluates to its parts joined |
| `WordProperties.ConcatSingleton` | src/apf/mod.rs:206-222 | a concatenation of one part evaluates exactly as that part standing alone |
| `WordProperties.ConcatAppend` | src/apf/mod.rs:212-218 | joining the parts of `ws1 + ws2` is joining `ws1` and then `ws2`, and the first error in that order wins |
| `WordProperties.ConcatFirstError` | src/apf/mod.rs:212-218 | a concatenation fails exactly when one of its parts fails, and then with the error of the first failing part |
| `References.ComplexWordFrame` | src/apf/mod.rs:206-350 | evaluation reads the context only: a word evaluates alike in any two contexts that agree on the variables it references |
| `References.ComplexWordUnboundFails` | src/apf/mod.rs:243-345 | a word that references an unbound variable anywhere fails, including inside quotes, concatenations and substitution operator texts |
| `Commands.ArgsSimple` | src/apf/mod.rs:155-178 | a simple command with command words, or with a redirect anywhere among its entries, is `InvalidSyntax` and commits none of its assignments |
| `Commands.ArgsPipeable` | src/apf/mod.rs:140-153 | compound commands and function definitions are `InvalidSyntax` and leave the context unchanged |
| `Commands.ArgsListable` | src/apf/mod.rs:128-138 | a pipeline is `InvalidSyntax("Pipe not allowed")` and leaves the context unchanged |
| `Commands.ArgsTopLevel` | src/apf/mod.rs:99-126 | a background job is `InvalidSyntax` and leaves the context unchanged |
| `Commands.AssignEnvVars` | src/apf/mod.rs:180-203 | assignments never remove a name, and each name they add is one of the entries' names; on success every entry is an assignment with a value, and every assigned name is bound |
| `Commands.Members` | src/apf/mod.rs:105-108 | an AND/OR list is flattened into its first command followed by the command of each AND or OR link, in order, one member per command |
| `Commands.ListablesRun` | src/apf/mod.rs:103-121 | running a list never removes a name; a list that succeeds contains no pipe; when the first member fails, its error is the list's |
| `Commands.Parse` | src/apf/mod.rs:59-97 | the loop never removes a name; a successful parse met no parser error and no background job |
| `CommandProperties.AssignmentsCommitInOrder` | src/apf/mod.rs:180-203 | each entry is committed in declaration order and evaluated in the context the earlier entries left. The walk succeeds exactly when every entry does, and then the context is all entries committed. Otherwise it equals the first failing entry's own step: that entry's error, with the context committed before it |
| `CommandProperties.AssignmentsBindValues` | src/apf/mod.rs:180-203 | after a walk that succeeds, the name of any entry that no later entry assigns again holds that entry's value, whatever word it is, evaluated in the context the entries before it left |
| `CommandProperties.AssignmentsKeepOthers` | src/apf/mod.rs:180-203 | a walk, succeeding or not, leaves every name that none of its entries assigns bound as before |
| `CommandProperties.MissingValueKeepsEarlier` | src/apf/mod.rs:182-191 | an assignment without a value is `InvalidSyntax` naming the variable, and the assignments before it stay committed |
| `CommandProperties.LaterValueSeesEarlier` | src/apf/mod.rs:193-194 | in `A='t' B=$A` the second value reads the first, so both names end up bound to `t` |
| `CommandProperties.LiteralAssignmentsBind` | src/apf/mod.rs:180-203 | assignments of literal values succeed and bind exactly the earlier names plus the assigned ones |
| `CommandProperties.LiteralAssignmentsLastWriteWins` | src/apf/mod.rs:193-194 | after assignments of literal values, each assigned name holds the text of its last assignment |
| `CommandProperties.LiteralAssignmentsKeepOthers` | src/apf/mod.rs:193-194 | assignments leave every name they do not assign as it was |
| `CommandProperties.RefusedCommitsNothing` | src/apf/mod.rs:128-178 | a pipe, compound command, function definition, command word or redirect is `InvalidSyntax` in any context and commits nothing |
| `CommandProperties.ListRunsEveryMember` | src/apf/mod.rs:103-121 | every member of an AND/OR list runs in order against the shared context, whether or not an earlier one failed. The final context holds all their effects. The list succeeds exactly when every member does, and otherwise reports the first failing member's error |
| `CommandProperties.AndOrAlike` | src/apf/mod.rs:105-108 | exchanging `&&` and `||` in a list changes nothing: neither short-circuits |
| `CommandProperties.RefusedMemberFailsList` | src/apf/mod.rs:103-121 | a refused member anywhere in a list makes the top-level command fail, whatever assignments surround it. When every member before it succeeds, the failure is that member's `InvalidSyntax` |
| `CommandProperties.ParseStopsAtFirstError` | src/apf/mod.rs:63-96 | once a prefix of the input fails, nothing after it is walked: the outcome, committed context included, is the prefix's |
| `CommandProperties.ParseComposes` | src/apf/mod.rs:63-96 | a prefix that succeeds hands its context on, and the rest of the input is walked in it |
| `CommandProperties.RefusedItemFailsParse` | src/apf/mod.rs:63-96 | an input with a parser error, a job, or a refused list member anywhere fails |
| `CommandProperties.ParserErrorFailsParse` | src/apf/mod.rs:64-74 | after input that succeeds, a parser error fails the whole input with `InvalidSyntax` carrying the parser's message, keeps the context the earlier input left, and nothing after it is walked |
| `CommandProperties.JobFailsParse` | src/apf/mod.rs:76-125 | after input that succeeds, a background job fails the whole input with `InvalidSyntax("Syntax error: job not allowed.")` and commits nothing of its own |
| `CommandProperties.RefusedMemberFailsParse` | src/apf/mod.rs:76-121 | after input that succeeds, a list whose refused member is preceded by members that succeed fails the whole input with that member's own `InvalidSyntax` error |
| `CommandProperties.LinePerAssignment` | src/apf/mod.rs:59-97 | a script with one assignment command per line has the same effect as one command carrying all those assignments in order |
| `CommandProperties.PipeExample` | src/apf/mod.rs:134-136 | `A=foo` piped into `B=bar` fails with `InvalidSyntax("Pipe not allowed")` and commits neither assignment |
| `CommandProperties.UndefinedExample` | src/apf/mod.rs:258-263 | `B=${UNDEFINED}`, with `UNDEFINED` unbound, fails with `ContextError("Param variable not found.")` and commits nothing |

## Left out

- The shell lexer and parser (`conch_parser`) are an external library. The
  model starts from the parsed commands. The line and column attached to an
  error come from the parser's cursor and are not modelled: errors are
  `ParseErrorInfo` values without a position.
- The `glob` and `substitution` modules are not part of this model. Their
  `get_replace` and `get_substring` are parameters, so no replace, slice,
  glob or regex semantics is assumed. Worked inputs whose outcome depends on
  them, such as `${A/foo/bar}` or `${A:1:3}`, are therefore not proved.
- Words.SubstOrigin: the reason for an unbound variable is `"Param " +
  VarDisplay(name) + " not found."`. The source leaves the rendering of the
  variable to the shell parser's display code, which is not part of this
  model. `VarDisplay` writes `${name}`, which is how that parser is
  understood to render a variable. The exact text is therefore trusted, not
  derived from the source.
- The conversion from `regex::Error` and the `Display` formatting of errors
  are left out. They format a foreign error type and integers into text.
- The debug `println!` calls are left out. They are output only.
- The other parameter-substitution operators reach `todo!()` and panic.
  They are not constructors of `ParameterSubstitution`, so no model input
  reaches that panic.
- The payloads the walker never looks into are reduced to tags: redirect
  targets, compound-command bodies and function bodies.
