/** The word evaluator of src/apf/mod.rs: reduces words and parameter
    references to strings against a context it only reads. The functions
    are mutually recursive through parameter substitutions, whose operator
    text is itself a word. */
module Words {
  import opened Wrappers
  import opened Syntax
  import opened Apf

  /** Looks a parameter up: `Some` with its value when it is a variable bound
      in the context, `None` when it is an unbound variable, and an error for
      every special or positional parameter. */
  function ParameterAsString(p: Parameter, ctx: Context): (r: Result<Option<string>, ParseErrorInfo>)
    ensures r.Err? <==> !p.Var?
    ensures !p.Var? ==> r.error == InvalidSyntax("Unsupported parameter.")
    ensures p.Var? && p.name in ctx ==> r == Ok(Some(ctx[p.name]))
    ensures p.Var? && p.name !in ctx ==> r == Ok(None)
  {
    match p
    case Var(name) => if name in ctx then Ok(Some(ctx[name])) else Ok(None)
    case _ => Err(InvalidSyntax("Unsupported parameter."))
  }

  /** The string a substitution operates on: the value of its parameter,
      which must be a bound variable. An unbound one is a context error that
      names it as the shell parser displays it. */
  function SubstOrigin(p: Parameter, ctx: Context): (r: Result<string, ParseErrorInfo>)
    ensures r.Ok? <==> p.Var? && p.name in ctx
    ensures r.Ok? ==> r.value == ctx[p.name]
    ensures p.Var? && p.name !in ctx ==> r == Err(ContextError("Param " + VarDisplay(p.name) + " not found."))
    ensures !p.Var? ==> r == Err(InvalidSyntax("Unsupported parameter."))
  {
    var value :- ParameterAsString(p, ctx);
    match value
    case Some(origin) => Ok(origin)
    case None => Err(ContextError("Param " + VarDisplay(p.name) + " not found."))
  }

  /** A substitution: the origin is resolved first, then the operator text,
      then the operator is handed to the substitution primitives. */
  function SubstResult(s: ParameterSubstitution, ctx: Context, sub: Substitution): (r: Result<string, ParseErrorInfo>)
    ensures SubstOrigin(s.param, ctx).Err? ==> r == Err(SubstOrigin(s.param, ctx).error)
    ensures SubstOrigin(s.param, ctx).Ok? && s.command.None? ==>
              r == Err(InvalidSyntax("No substring command provided"))
    ensures r.Ok? ==> s.param.Var? && s.param.name in ctx && s.command.Some? &&
                      ComplexWordAsString(s.command.value, ctx, sub).Ok?
    decreases 1, s
  {
    var origin :- SubstOrigin(s.param, ctx);
    match s.command
    case None => Err(InvalidSyntax("No substring command provided"))
    case Some(c) =>
      var command :- ComplexWordAsString(c, ctx, sub);
      match s
      case ReplaceString(_, _) => sub.replace(origin, command, false)
      case ReplaceStringAll(_, _) => sub.replace(origin, command, true)
      case Substring(_, _) => sub.substring(origin, command)
  }

  /** A simple word. Literal, escaped and colon words always succeed; a
      parameter succeeds exactly when it is a bound variable; glob and tilde
      tokens never do. */
  function SimpleWordAsString(w: SimpleWord, ctx: Context, sub: Substitution): (r: Result<string, ParseErrorInfo>)
    ensures r.Err? ==> w.Param? || w.Subst? || w.Star? || w.Question? || w.SquareOpen? || w.SquareClose? || w.Tilde?
    ensures w.Param? ==> (r.Ok? <==> w.param.Var? && w.param.name in ctx)
    ensures r.Ok? ==> w.Literal? || w.Escaped? || w.Colon? || w.Param? || w.Subst?
    decreases if w.Literal? then 0 else 1, w
  {
    match w
    case Literal(text) => Ok(text)
    case Escaped(text) => Ok(if text == "\n" then "" else text)
    case Colon => Ok(":")
    case Param(p) =>
      var value :- ParameterAsString(p, ctx);
      if value.Some? then Ok(value.value) else Err(ContextError("Param variable not found."))
    case Subst(s) => SubstResult(s, ctx, sub)
    case Star | Question | SquareOpen | SquareClose | Tilde => Err(InvalidSyntax("Encountered star, square, tide, or other unsupported chatacters."))
  }

  /** The simple words of a double-quoted word, evaluated left to right and
      joined; the first failure ends the evaluation. */
  function SimpleWordsAsString(ws: seq<SimpleWord>, ctx: Context, sub: Substitution): (r: Result<string, ParseErrorInfo>)
    ensures r.Ok? <==> forall i :: 0 <= i < |ws| ==> SimpleWordAsString(ws[i], ctx, sub).Ok?
    decreases 1, ws
  {
    if |ws| == 0 then Ok("")
    else
      var head :- SimpleWordAsString(ws[0], ctx, sub);
      var tail :- SimpleWordsAsString(ws[1..], ctx, sub);
      Ok(head + tail)
  }

  /** A word. Single-quoted text always succeeds; a double-quoted word
      succeeds exactly when each of its parts does. */
  function WordAsString(w: Word, ctx: Context, sub: Substitution): (r: Result<string, ParseErrorInfo>)
    ensures w.SingleQuoted? ==> r.Ok?
    ensures w.Simple? ==> (r.Ok? <==> SimpleWordAsString(w.word, ctx, sub).Ok?)
    ensures w.DoubleQuoted? ==>
              (r.Ok? <==> forall i :: 0 <= i < |w.words| ==> SimpleWordAsString(w.words[i], ctx, sub).Ok?)
    decreases if w.Simple? && w.word.Literal? then 0 else 1, w
  {
    match w
    case SingleQuoted(text) => Ok(text)
    case Simple(s) => SimpleWordAsString(s, ctx, sub)
    case DoubleQuoted(ws) => SimpleWordsAsString(ws, ctx, sub)
  }

  /** The parts of a concatenated word, evaluated left to right and joined;
      the first failure ends the evaluation. */
  function WordsAsString(ws: seq<Word>, ctx: Context, sub: Substitution): (r: Result<string, ParseErrorInfo>)
    ensures r.Ok? <==> forall i :: 0 <= i < |ws| ==> WordAsString(ws[i], ctx, sub).Ok?
    decreases 1, ws
  {
    if |ws| == 0 then Ok("")
    else
      var head :- WordAsString(ws[0], ctx, sub);
      var tail :- WordsAsString(ws[1..], ctx, sub);
      Ok(head + tail)
  }

  /** A complex word. A concatenation is joined into one string, wrapped
      back into a literal word and that word evaluated again. */
  function ComplexWordAsString(c: ComplexWord, ctx: Context, sub: Substitution): (r: Result<string, ParseErrorInfo>)
    ensures c.Single? ==> (r.Ok? <==> WordAsString(c.word, ctx, sub).Ok?)
    ensures c.Concat? ==> (r.Ok? <==> forall i :: 0 <= i < |c.words| ==> WordAsString(c.words[i], ctx, sub).Ok?)
    decreases 1, c
  {
    match c
    case Single(w) => WordAsString(w, ctx, sub)
    case Concat(ws) =>
      var content :- WordsAsString(ws, ctx, sub);
      WordAsString(Word.Simple(Literal(content)), ctx, sub)
  }
}
