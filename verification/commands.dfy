/** The command walker of src/apf/mod.rs: checks that each top-level command
    uses only the permitted shapes and commits its `NAME=value` assignments
    to the context. */
module Commands {
  import opened Wrappers
  import opened Syntax
  import opened Apf
  import opened Words

  /** The names the entries assign. */
  function AssignedNames(entries: seq<RedirectOrEnvVar>): set<string>
    decreases |entries|
  {
    if |entries| == 0 then {}
    else (if entries[0].EnvVar? then {entries[0].name} else {}) + AssignedNames(entries[1..])
  }

  /** Commits the entries of a simple command in declaration order, each
      value evaluated in the context the earlier entries left. The first
      failing entry ends the walk; what was committed before it stays. */
  function AssignEnvVars(entries: seq<RedirectOrEnvVar>, ctx: Context, sub: Substitution): (r: Effect)
    ensures ctx.Keys <= r.context.Keys
    ensures r.context.Keys <= ctx.Keys + AssignedNames(entries)
    ensures r.result.Ok? ==>
              forall i :: 0 <= i < |entries| ==>
                entries[i].EnvVar? && entries[i].value.Some? && entries[i].name in r.context
    decreases |entries|
  {
    if |entries| == 0 then Effect(ctx, Ok(()))
    else
      match entries[0]
      case Redirect => Effect(ctx, Err(InvalidSyntax("Redirects not allowed.")))
      case EnvVar(name, None) => Effect(ctx, Err(InvalidSyntax("Variable " + name + " without value.")))
      case EnvVar(name, Some(word)) =>
        match ComplexWordAsString(word, ctx, sub)
        case Err(e) => Effect(ctx, Err(e))
        case Ok(value) => AssignEnvVars(entries[1..], ctx[name := value], sub)
  }

  predicate HasRedirect(entries: seq<RedirectOrEnvVar>) {
    exists i :: 0 <= i < |entries| && entries[i].Redirect?
  }

  /** A simple command may carry assignments only. Command words and
      redirects are refused before any of its assignments is committed. */
  function ArgsSimple(cmd: SimpleCommand, ctx: Context, sub: Substitution): (r: Effect)
    ensures |cmd.redirectsOrCmdWords| > 0 ==>
              r == Effect(ctx, Err(InvalidSyntax("Commands not allowed.")))
    ensures |cmd.redirectsOrCmdWords| == 0 && HasRedirect(cmd.redirectsOrEnvVars) ==>
              r == Effect(ctx, Err(InvalidSyntax("Redirects not allowed.")))
  {
    if |cmd.redirectsOrCmdWords| > 0 then
      Effect(ctx, Err(InvalidSyntax("Commands not allowed.")))
    else if HasRedirect(cmd.redirectsOrEnvVars) then
      Effect(ctx, Err(InvalidSyntax("Redirects not allowed.")))
    else
      AssignEnvVars(cmd.redirectsOrEnvVars, ctx, sub)
  }

  /** Compound commands and function definitions are refused without
      touching the context; the compound case reports the reason the source
      gives it, "Redirection not allowed.". */
  function ArgsPipeable(cmd: PipeableCommand, ctx: Context, sub: Substitution): (r: Effect)
    ensures cmd.Compound? ==> r == Effect(ctx, Err(InvalidSyntax("Redirection not allowed.")))
    ensures cmd.FunctionDef? ==> r == Effect(ctx, Err(InvalidSyntax("Function definition not allowed.")))
  {
    match cmd
    case Simple(c) => ArgsSimple(c, ctx, sub)
    case Compound => Effect(ctx, Err(InvalidSyntax("Redirection not allowed.")))
    case FunctionDef(_) => Effect(ctx, Err(InvalidSyntax("Function definition not allowed.")))
  }

  /** A pipeline is refused without touching the context. */
  function ArgsListable(cmd: ListableCommand, ctx: Context, sub: Substitution): (r: Effect)
    ensures cmd.Pipe? ==> r == Effect(ctx, Err(InvalidSyntax("Pipe not allowed")))
  {
    match cmd
    case Single(c) => ArgsPipeable(c, ctx, sub)
    case Pipe(_, _) => Effect(ctx, Err(InvalidSyntax("Pipe not allowed")))
  }

  /** The commands of an AND/OR list in list order. `&&` and `||` both
      contribute their command alike. */
  function Members(list: AndOrList): (r: seq<ListableCommand>)
    ensures |r| == |list.rest| + 1 && r[0] == list.first
    ensures forall i :: 0 <= i < |list.rest| ==> r[i + 1] == list.rest[i].cmd
  {
    [list.first] + seq(|list.rest|, i requires 0 <= i < |list.rest| => list.rest[i].cmd)
  }

  /** Walks every member of an AND/OR list against the shared context, even
      after one has failed (the source collects all results before looking
      at them), and reports the first error in list order. */
  function ListablesRun(cmds: seq<ListableCommand>, ctx: Context, sub: Substitution): (r: Effect)
    ensures ctx.Keys <= r.context.Keys
    ensures r.result.Ok? ==> forall i :: 0 <= i < |cmds| ==> !cmds[i].Pipe?
    ensures |cmds| > 0 && ArgsListable(cmds[0], ctx, sub).result.Err? ==>
              r.result == ArgsListable(cmds[0], ctx, sub).result
    decreases |cmds|
  {
    if |cmds| == 0 then Effect(ctx, Ok(()))
    else
      var first := ArgsListable(cmds[0], ctx, sub);
      var rest := ListablesRun(cmds[1..], first.context, sub);
      Effect(rest.context, if first.result.Err? then first.result else rest.result)
  }

  /** A top-level command: an AND/OR list is walked, a background job is
      refused without touching the context. */
  function ArgsTopLevel(cmd: TopLevelCommand, ctx: Context, sub: Substitution): (r: Effect)
    ensures cmd.Job? ==> r == Effect(ctx, Err(InvalidSyntax("Syntax error: job not allowed.")))
  {
    match cmd
    case List(list) => ListablesRun(Members(list), ctx, sub)
    case Job(_) => Effect(ctx, Err(InvalidSyntax("Syntax error: job not allowed.")))
  }

  /** The top-level loop. `items` is what the shell parser yields, one item
      per complete command, in order: the command, or the parser's own error
      text; the end of the sequence is the end of input. Commands are walked
      in order against the same context and the first error stops the loop,
      leaving every earlier effect in the context. */
  function Parse(items: seq<Result<TopLevelCommand, string>>, ctx: Context, sub: Substitution): (r: Effect)
    ensures ctx.Keys <= r.context.Keys
    ensures r.result.Ok? ==> forall i :: 0 <= i < |items| ==> items[i].Ok? && items[i].value.List?
    decreases |items|
  {
    if |items| == 0 then Effect(ctx, Ok(()))
    else
      match items[0]
      case Err(message) => Effect(ctx, Err(InvalidSyntax(message)))
      case Ok(cmd) =>
        var r := ArgsTopLevel(cmd, ctx, sub);
        if r.result.Err? then r else Parse(items[1..], r.context, sub)
  }
}
