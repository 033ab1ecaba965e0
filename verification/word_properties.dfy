/** What the word evaluator promises: the value of each kind of word, the
    in-order joining of quoted and concatenated words with the first error
    winning, the dispatch of substitutions, and that evaluation depends on
    the context only through the variables a word references. */
module WordProperties {
  import opened Wrappers
  import opened Syntax
  import opened Apf
  import opened Words

  /* ---------------- Leaf words and variable references ---------------- */

  /** Literal, colon and single-quoted text evaluate to themselves. */
  lemma VerbatimWords(text: string, ctx: Context, sub: Substitution)
    ensures SimpleWordAsString(Literal(text), ctx, sub) == Ok(text)
    ensures SimpleWordAsString(Colon, ctx, sub) == Ok(":")
    ensures WordAsString(SingleQuoted(text), ctx, sub) == Ok(text)
  {
  }

  /** An escaped newline is a line continuation and evaluates to nothing;
      any other escaped text evaluates to itself, unchanged. */
  lemma EscapedWords(text: string, ctx: Context, sub: Substitution)
    ensures text == "\n" ==> SimpleWordAsString(Escaped(text), ctx, sub) == Ok("")
    ensures text != "\n" ==> SimpleWordAsString(Escaped(text), ctx, sub) == Ok(text)
  {
  }

  /** Glob and tilde tokens, and every parameter other than a plain
      variable, are syntax errors wherever a simple word is evaluated. */
  lemma UnsupportedWords(w: SimpleWord, ctx: Context, sub: Substitution)
    requires w.Star? || w.Question? || w.SquareOpen? || w.SquareClose? || w.Tilde? || (w.Param? && !w.param.Var?)
    ensures w.Param? ==> SimpleWordAsString(w, ctx, sub) == Err(InvalidSyntax("Unsupported parameter."))
    ensures !w.Param? ==>
              (SimpleWordAsString(w, ctx, sub) ==
               Err(InvalidSyntax("Encountered star, square, tide, or other unsupported chatacters.")))
  {
  }

  /** `$X` is the value of X when X is bound, and a context error when it is
      not: an unbound variable never reads as the empty string. The same
      holds for the variable a substitution operates on, whatever follows it. */
  lemma VariableReference(name: string, ctx: Context, sub: Substitution)
    ensures name in ctx ==> SimpleWordAsString(Param(Var(name)), ctx, sub) == Ok(ctx[name])
    ensures name !in ctx ==>
              SimpleWordAsString(Param(Var(name)), ctx, sub) == Err(ContextError("Param variable not found."))
    ensures name !in ctx ==> forall s: ParameterSubstitution :: s.param == Var(name) ==>
              SubstResult(s, ctx, sub) == Err(ContextError("Param " + VarDisplay(name) + " not found."))
  {
  }

  /** The substitution operators: the origin is resolved before anything
      else, a missing operator text is a syntax error, an operator text that
      fails to evaluate passes its error on, and otherwise the result is the
      primitive the operator names, applied to the origin and the text. */
  lemma SubstDispatch(s: ParameterSubstitution, ctx: Context, sub: Substitution)
    ensures SubstOrigin(s.param, ctx).Err? ==> SubstResult(s, ctx, sub) == Err(SubstOrigin(s.param, ctx).error)
    ensures SubstOrigin(s.param, ctx).Ok? && s.command.None? ==>
              SubstResult(s, ctx, sub) == Err(InvalidSyntax("No substring command provided"))
    ensures SubstOrigin(s.param, ctx).Ok? && s.command.Some? ==>
              var origin := SubstOrigin(s.param, ctx).value;
              var command := ComplexWordAsString(s.command.value, ctx, sub);
              && (command.Err? ==> SubstResult(s, ctx, sub) == Err(command.error))
              && (command.Ok? && s.ReplaceString? ==> SubstResult(s, ctx, sub) == sub.replace(origin, command.value, false))
              && (command.Ok? && s.ReplaceStringAll? ==> SubstResult(s, ctx, sub) == sub.replace(origin, command.value, true))
              && (command.Ok? && s.Substring? ==> SubstResult(s, ctx, sub) == sub.substring(origin, command.value))
  {
  }

  /* ---------------- Double-quoted words ---------------- */

  /** Double-quoted text is joined part by part: evaluating `ws1 + ws2` is
      evaluating `ws1`, then `ws2`, and concatenating, with the first error
      in that order winning. */
  lemma {:induction false} DoubleQuotedAppend(ws1: seq<SimpleWord>, ws2: seq<SimpleWord>, ctx: Context, sub: Substitution)
    ensures SimpleWordsAsString(ws1 + ws2, ctx, sub) ==
            match SimpleWordsAsString(ws1, ctx, sub)
            case Err(e) => Err(e)
            case Ok(a) =>
              match SimpleWordsAsString(ws2, ctx, sub)
              case Err(e) => Err(e)
              case Ok(b) => Ok(a + b)
    decreases |ws1|
  {
    if |ws1| == 0 {
      assert ws1 + ws2 == ws2;
      var t2 := SimpleWordsAsString(ws2, ctx, sub);
      if t2.Ok? {
        assert "" + t2.value == t2.value;
      }
    } else {
      assert (ws1 + ws2)[0] == ws1[0];
      assert (ws1 + ws2)[1..] == ws1[1..] + ws2;
      DoubleQuotedAppend(ws1[1..], ws2, ctx, sub);
      var h := SimpleWordAsString(ws1[0], ctx, sub);
      if h.Ok? {
        var t1 := SimpleWordsAsString(ws1[1..], ctx, sub);
        var t2 := SimpleWordsAsString(ws2, ctx, sub);
        if t1.Ok? && t2.Ok? {
          assert h.value + (t1.value + t2.value) == (h.value + t1.value) + t2.value;
        }
      }
    }
  }

  /** One simple word inside double quotes evaluates as it does alone. */
  lemma DoubleQuotedSingleton(w: SimpleWord, ctx: Context, sub: Substitution)
    ensures WordAsString(DoubleQuoted([w]), ctx, sub) == SimpleWordAsString(w, ctx, sub)
  {
    assert [w][0] == w && [w][1..] == [];
    var h := SimpleWordAsString(w, ctx, sub);
    assert SimpleWordsAsString([], ctx, sub) == Ok("");
    if h.Ok? {
      assert h.value + "" == h.value;
    }
  }

  /** Double-quoted text fails exactly when one of its parts fails, and then
      with the error of the first failing part. */
  lemma {:induction false} DoubleQuotedFirstError(ws: seq<SimpleWord>, ctx: Context, sub: Substitution)
    ensures var r := WordAsString(DoubleQuoted(ws), ctx, sub);
            && (r.Err? <==> exists i :: 0 <= i < |ws| && SimpleWordAsString(ws[i], ctx, sub).Err?)
            && (r.Err? ==> exists i :: 0 <= i < |ws| && SimpleWordAsString(ws[i], ctx, sub) == Err(r.error) &&
                                       forall j :: 0 <= j < i ==> SimpleWordAsString(ws[j], ctx, sub).Ok?)
    decreases |ws|
  {
    var r := SimpleWordsAsString(ws, ctx, sub);
    if |ws| > 0 {
      DoubleQuotedFirstError(ws[1..], ctx, sub);
      var h := SimpleWordAsString(ws[0], ctx, sub);
      if h.Ok? {
        var t := SimpleWordsAsString(ws[1..], ctx, sub);
        if t.Err? {
          var i :| 0 <= i < |ws[1..]| && SimpleWordAsString(ws[1..][i], ctx, sub) == Err(t.error) &&
                   forall j :: 0 <= j < i ==> SimpleWordAsString(ws[1..][j], ctx, sub).Ok?;
          SimplePartsOk(ws, i, ctx, sub);
          assert SimpleWordAsString(ws[i + 1], ctx, sub) == Err(r.error);
        }
      }
    }
  }

  /** The parts before position `k + 1` all evaluate when the first one does
      and those of the tail before `k` do. */
  lemma SimplePartsOk(ws: seq<SimpleWord>, k: nat, ctx: Context, sub: Substitution)
    requires k < |ws| && SimpleWordAsString(ws[0], ctx, sub).Ok?
    requires forall j :: 0 <= j < k ==> SimpleWordAsString(ws[1..][j], ctx, sub).Ok?
    ensures forall j :: 0 <= j <= k ==> SimpleWordAsString(ws[j], ctx, sub).Ok?
  {
    forall j | 0 < j <= k
      ensures SimpleWordAsString(ws[j], ctx, sub).Ok?
    {
      assert ws[j] == ws[1..][j - 1];
    }
  }

  /* ---------------- Concatenated words ---------------- */

  /** Wrapping the joined parts of a concatenation back into a literal word
      changes nothing: a concatenation evaluates to its parts joined. */
  lemma ConcatIsJoin(ws: seq<Word>, ctx: Context, sub: Substitution)
    ensures ComplexWordAsString(Concat(ws), ctx, sub) == WordsAsString(ws, ctx, sub)
  {
  }

  /** A concatenation of one part evaluates as that part does on its own. */
  lemma ConcatSingleton(w: Word, ctx: Context, sub: Substitution)
    ensures ComplexWordAsString(Concat([w]), ctx, sub) == ComplexWordAsString(ComplexWord.Single(w), ctx, sub)
  {
    ConcatIsJoin([w], ctx, sub);
    assert [w][0] == w && [w][1..] == [];
    var h := WordAsString(w, ctx, sub);
    assert WordsAsString([], ctx, sub) == Ok("");
    if h.Ok? {
      assert h.value + "" == h.value;
    }
  }

  /** A concatenation is joined part by part: evaluating `ws1 + ws2` is
      evaluating `ws1`, then `ws2`, and concatenating, with the first error
      in that order winning. */
  lemma {:induction false} ConcatAppend(ws1: seq<Word>, ws2: seq<Word>, ctx: Context, sub: Substitution)
    ensures WordsAsString(ws1 + ws2, ctx, sub) ==
            match WordsAsString(ws1, ctx, sub)
            case Err(e) => Err(e)
            case Ok(a) =>
              match WordsAsString(ws2, ctx, sub)
              case Err(e) => Err(e)
              case Ok(b) => Ok(a + b)
    decreases |ws1|
  {
    if |ws1| == 0 {
      assert ws1 + ws2 == ws2;
      var t2 := WordsAsString(ws2, ctx, sub);
      if t2.Ok? {
        assert "" + t2.value == t2.value;
      }
    } else {
      assert (ws1 + ws2)[0] == ws1[0];
      assert (ws1 + ws2)[1..] == ws1[1..] + ws2;
      ConcatAppend(ws1[1..], ws2, ctx, sub);
      var h := WordAsString(ws1[0], ctx, sub);
      if h.Ok? {
        var t1 := WordsAsString(ws1[1..], ctx, sub);
        var t2 := WordsAsString(ws2, ctx, sub);
        if t1.Ok? && t2.Ok? {
          assert h.value + (t1.value + t2.value) == (h.value + t1.value) + t2.value;
        }
      }
    }
  }

  /** A concatenation fails exactly when one of its parts fails, and then
      with the error of the first failing part. */
  lemma {:induction false} ConcatFirstError(ws: seq<Word>, ctx: Context, sub: Substitution)
    ensures var r := ComplexWordAsString(Concat(ws), ctx, sub);
            && (r.Err? <==> exists i :: 0 <= i < |ws| && WordAsString(ws[i], ctx, sub).Err?)
            && (r.Err? ==> exists i :: 0 <= i < |ws| && WordAsString(ws[i], ctx, sub) == Err(r.error) &&
                                       forall j :: 0 <= j < i ==> WordAsString(ws[j], ctx, sub).Ok?)
    decreases |ws|
  {
    var r := WordsAsString(ws, ctx, sub);
    ConcatIsJoin(ws, ctx, sub);
    if |ws| > 0 {
      ConcatFirstError(ws[1..], ctx, sub);
      ConcatIsJoin(ws[1..], ctx, sub);
      var h := WordAsString(ws[0], ctx, sub);
      if h.Ok? {
        var t := WordsAsString(ws[1..], ctx, sub);
        if t.Err? {
          var i :| 0 <= i < |ws[1..]| && WordAsString(ws[1..][i], ctx, sub) == Err(t.error) &&
                   forall j :: 0 <= j < i ==> WordAsString(ws[1..][j], ctx, sub).Ok?;
          WordPartsOk(ws, i, ctx, sub);
          assert WordAsString(ws[i + 1], ctx, sub) == Err(r.error);
        }
      }
    }
  }

  /** The parts before position `k + 1` all evaluate when the first one does
      and those of the tail before `k` do. */
  lemma WordPartsOk(ws: seq<Word>, k: nat, ctx: Context, sub: Substitution)
    requires k < |ws| && WordAsString(ws[0], ctx, sub).Ok?
    requires forall j :: 0 <= j < k ==> WordAsString(ws[1..][j], ctx, sub).Ok?
    ensures forall j :: 0 <= j <= k ==> WordAsString(ws[j], ctx, sub).Ok?
  {
    forall j | 0 < j <= k
      ensures WordAsString(ws[j], ctx, sub).Ok?
    {
      assert ws[j] == ws[1..][j - 1];
    }
  }
}
