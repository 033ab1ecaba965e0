/** The state and error types shared by the word evaluator and the command
    walker (src/apf/mod.rs). */
module Apf {
  import opened Wrappers

  /** Variable name to value. The source keeps it in a hash map, so there is
      no order among the entries. */
  type Context = map<string, string>

  /** The error categories an evaluation can end with, each with its reason. */
  datatype ParseErrorInfo =
    | InvalidSyntax(reason: string)
    | ContextError(reason: string)
    | SubstitutionError(reason: string)
    | GlobError(reason: string)
    | RegexError(reason: string)

  /** What a command walker leaves behind: the context with every assignment
      committed so far, and whether the walk succeeded. The source mutates
      the caller's context in place, so the committed part survives an error. */
  datatype Effect = Effect(context: Context, result: Result<(), ParseErrorInfo>)

  /** The two string transforms of the substitution module, whose definitions
      are outside this model: `replace(origin, command, all)` and
      `substring(origin, command)`. Nothing is assumed about them. */
  datatype Substitution = Substitution(
    replace: (string, string, bool) -> Result<string, ParseErrorInfo>,
    substring: (string, string) -> Result<string, ParseErrorInfo>)
}
