/** The shapes of the shell syntax tree the evaluator consumes. The tree is
    built by an external shell parser; only the node kinds the evaluator
    distinguishes are kept, and the payloads it never inspects (redirect
    targets, compound bodies, function bodies) are reduced to what identifies
    the node. */
module Syntax {
  import opened Wrappers

  /** A parameter reference. Only `Var` is supported; the others stand for
      `$@`, `$*`, `$#`, `$?`, `$-`, `$$`, `$!` and the positional `$1`, `$2`, … */
  datatype Parameter =
    | At
    | Star
    | Pound
    | Question
    | Dash
    | Dollar
    | Bang
    | Positional(index: nat)
    | Var(name: string)

  /** How the shell parser displays a variable parameter in messages:
      `${name}`. */
  function VarDisplay(name: string): string {
    "${" + name + "}"
  }

  /** The three parameter-substitution operators the evaluator supports:
      `${p/pat/rep}`, `${p//pat/rep}` and `${p:offset:length}`. The operator's
      text after the parameter is the optional `command` word. */
  datatype ParameterSubstitution =
    | ReplaceString(param: Parameter, command: Option<ComplexWord>)
    | ReplaceStringAll(param: Parameter, command: Option<ComplexWord>)
    | Substring(param: Parameter, command: Option<ComplexWord>)

  /** The smallest word fragments. `Star` … `Tilde` are unquoted glob and
      tilde tokens, none of which the evaluator accepts. */
  datatype SimpleWord =
    | Literal(text: string)
    | Escaped(text: string)
    | Param(param: Parameter)
    | Subst(subst: ParameterSubstitution)
    | Star
    | Question
    | SquareOpen
    | SquareClose
    | Tilde
    | Colon

  datatype Word =
    | Simple(word: SimpleWord)
    | DoubleQuoted(words: seq<SimpleWord>)
    | SingleQuoted(text: string)

  datatype ComplexWord =
    | Concat(words: seq<Word>)
    | Single(word: Word)

  /** An entry of a simple command before its command words: either a
      redirect or a `NAME=value` assignment whose value may be missing. */
  datatype RedirectOrEnvVar =
    | Redirect
    | EnvVar(name: string, value: Option<ComplexWord>)

  /** An entry of a simple command's command part: a redirect or a word. */
  datatype RedirectOrCmdWord =
    | CmdRedirect
    | CmdWord(word: ComplexWord)

  datatype SimpleCommand = SimpleCommand(
    redirectsOrEnvVars: seq<RedirectOrEnvVar>,
    redirectsOrCmdWords: seq<RedirectOrCmdWord>)

  /** A command that may stand in a pipeline; compound commands and function
      bodies are never looked into. */
  datatype PipeableCommand =
    | Simple(cmd: SimpleCommand)
    | Compound
    | FunctionDef(name: string)

  datatype ListableCommand =
    | Pipe(negated: bool, cmds: seq<PipeableCommand>)
    | Single(cmd: PipeableCommand)

  datatype AndOr =
    | And(cmd: ListableCommand)
    | Or(cmd: ListableCommand)

  /** `first && c1 || c2 …`: the first command and the connected rest. */
  datatype AndOrList = AndOrList(first: ListableCommand, rest: seq<AndOr>)

  /** A complete top-level command: a list ended by `;`/newline, or a job
      ended by `&`. */
  datatype TopLevelCommand =
    | List(list: AndOrList)
    | Job(list: AndOrList)
}
