/** The variables a word reads, and the two facts that tie them to the
    evaluator: evaluation depends on the context only through them, and
    referencing an unbound one anywhere in a word makes the word fail. */
module References {
  import opened Wrappers
  import opened Syntax
  import opened Apf
  import opened Words
  import WordProperties

  function ParamRefs(p: Parameter): set<string> {
    if p.Var? then {p.name} else {}
  }

  /** The variables a word reads: every `$X`, and every variable a
      substitution operates on, including those inside operator texts. */
  function SimpleWordRefs(w: SimpleWord): set<string>
    decreases w
  {
    match w
    case Param(p) => ParamRefs(p)
    case Subst(s) => SubstRefs(s)
    case _ => {}
  }

  function SubstRefs(s: ParameterSubstitution): set<string>
    decreases s
  {
    ParamRefs(s.param) + match s.command case None => {} case Some(c) => ComplexWordRefs(c)
  }

  function SimpleWordsRefs(ws: seq<SimpleWord>): set<string>
    decreases ws
  {
    if |ws| == 0 then {} else SimpleWordRefs(ws[0]) + SimpleWordsRefs(ws[1..])
  }

  function WordRefs(w: Word): set<string>
    decreases w
  {
    match w
    case SingleQuoted(_) => {}
    case Simple(s) => SimpleWordRefs(s)
    case DoubleQuoted(ws) => SimpleWordsRefs(ws)
  }

  function WordsRefs(ws: seq<Word>): set<string>
    decreases ws
  {
    if |ws| == 0 then {} else WordRefs(ws[0]) + WordsRefs(ws[1..])
  }

  function ComplexWordRefs(c: ComplexWord): set<string>
    decreases c
  {
    match c
    case Single(w) => WordRefs(w)
    case Concat(ws) => WordsRefs(ws)
  }

  /** Two contexts that bind the same names among `names` to the same values. */
  ghost predicate AgreeOn(c1: Context, c2: Context, names: set<string>) {
    forall n :: n in names ==> (n in c1 <==> n in c2) && (n in c1 ==> c1[n] == c2[n])
  }

  /* ---------------- Evaluation reads only the referenced variables ---------------- */

  lemma {:induction false} SimpleWordFrame(w: SimpleWord, c1: Context, c2: Context, sub: Substitution)
    requires AgreeOn(c1, c2, SimpleWordRefs(w))
    ensures SimpleWordAsString(w, c1, sub) == SimpleWordAsString(w, c2, sub)
    decreases w
  {
    match w
    case Subst(s) => SubstFrame(s, c1, c2, sub);
    case _ =>
  }

  lemma {:induction false} SubstFrame(s: ParameterSubstitution, c1: Context, c2: Context, sub: Substitution)
    requires AgreeOn(c1, c2, SubstRefs(s))
    ensures SubstResult(s, c1, sub) == SubstResult(s, c2, sub)
    decreases s
  {
    assert SubstOrigin(s.param, c1) == SubstOrigin(s.param, c2);
    match s.command
    case None =>
    case Some(c) => ComplexWordFrame(c, c1, c2, sub);
  }

  lemma {:induction false} SimpleWordsFrame(ws: seq<SimpleWord>, c1: Context, c2: Context, sub: Substitution)
    requires AgreeOn(c1, c2, SimpleWordsRefs(ws))
    ensures SimpleWordsAsString(ws, c1, sub) == SimpleWordsAsString(ws, c2, sub)
    decreases ws
  {
    if |ws| > 0 {
      SimpleWordFrame(ws[0], c1, c2, sub);
      SimpleWordsFrame(ws[1..], c1, c2, sub);
    }
  }

  lemma {:induction false} WordFrame(w: Word, c1: Context, c2: Context, sub: Substitution)
    requires AgreeOn(c1, c2, WordRefs(w))
    ensures WordAsString(w, c1, sub) == WordAsString(w, c2, sub)
    decreases w
  {
    match w
    case SingleQuoted(_) =>
    case Simple(s) => SimpleWordFrame(s, c1, c2, sub);
    case DoubleQuoted(ws) => SimpleWordsFrame(ws, c1, c2, sub);
  }

  lemma {:induction false} WordsFrame(ws: seq<Word>, c1: Context, c2: Context, sub: Substitution)
    requires AgreeOn(c1, c2, WordsRefs(ws))
    ensures WordsAsString(ws, c1, sub) == WordsAsString(ws, c2, sub)
    decreases ws
  {
    if |ws| > 0 {
      WordFrame(ws[0], c1, c2, sub);
      WordsFrame(ws[1..], c1, c2, sub);
    }
  }

  /** A word evaluates alike in any two contexts that agree on the variables
      it references: evaluation reads the context and nothing else of it. */
  lemma {:induction false} ComplexWordFrame(c: ComplexWord, c1: Context, c2: Context, sub: Substitution)
    requires AgreeOn(c1, c2, ComplexWordRefs(c))
    ensures ComplexWordAsString(c, c1, sub) == ComplexWordAsString(c, c2, sub)
    decreases c
  {
    match c
    case Single(w) => WordFrame(w, c1, c2, sub);
    case Concat(ws) =>
      WordsFrame(ws, c1, c2, sub);
      WordProperties.ConcatIsJoin(ws, c1, sub);
      WordProperties.ConcatIsJoin(ws, c2, sub);
  }

  /* ---------------- An unbound reference anywhere fails ---------------- */

  lemma {:induction false} SimpleWordUnboundFails(w: SimpleWord, name: string, ctx: Context, sub: Substitution)
    requires name in SimpleWordRefs(w) && name !in ctx
    ensures SimpleWordAsString(w, ctx, sub).Err?
    decreases w
  {
    match w
    case Subst(s) => SubstUnboundFails(s, name, ctx, sub);
    case _ =>
  }

  lemma {:induction false} SubstUnboundFails(s: ParameterSubstitution, name: string, ctx: Context, sub: Substitution)
    requires name in SubstRefs(s) && name !in ctx
    ensures SubstResult(s, ctx, sub).Err?
    decreases s
  {
    if SubstOrigin(s.param, ctx).Ok? && s.command.Some? {
      assert name !in ParamRefs(s.param);
      ComplexWordUnboundFails(s.command.value, name, ctx, sub);
    }
  }

  lemma {:induction false} SimpleWordsUnboundFails(ws: seq<SimpleWord>, name: string, ctx: Context, sub: Substitution)
    requires name in SimpleWordsRefs(ws) && name !in ctx
    ensures SimpleWordsAsString(ws, ctx, sub).Err?
    decreases ws
  {
    if name in SimpleWordRefs(ws[0]) {
      SimpleWordUnboundFails(ws[0], name, ctx, sub);
    } else {
      SimpleWordsUnboundFails(ws[1..], name, ctx, sub);
    }
  }

  lemma {:induction false} WordUnboundFails(w: Word, name: string, ctx: Context, sub: Substitution)
    requires name in WordRefs(w) && name !in ctx
    ensures WordAsString(w, ctx, sub).Err?
    decreases w
  {
    match w
    case SingleQuoted(_) =>
    case Simple(s) => SimpleWordUnboundFails(s, name, ctx, sub);
    case DoubleQuoted(ws) => SimpleWordsUnboundFails(ws, name, ctx, sub);
  }

  lemma {:induction false} WordsUnboundFails(ws: seq<Word>, name: string, ctx: Context, sub: Substitution)
    requires name in WordsRefs(ws) && name !in ctx
    ensures WordsAsString(ws, ctx, sub).Err?
    decreases ws
  {
    if name in WordRefs(ws[0]) {
      WordUnboundFails(ws[0], name, ctx, sub);
    } else {
      WordsUnboundFails(ws[1..], name, ctx, sub);
    }
  }

  /** Referencing an unbound variable anywhere in a word, however deeply
      inside quotes, concatenations or substitution operator texts, makes
      the word fail: no reference silently reads as the empty string. */
  lemma {:induction false} ComplexWordUnboundFails(c: ComplexWord, name: string, ctx: Context, sub: Substitution)
    requires name in ComplexWordRefs(c) && name !in ctx
    ensures ComplexWordAsString(c, ctx, sub).Err?
    decreases c
  {
    match c
    case Single(w) => WordUnboundFails(w, name, ctx, sub);
    case Concat(ws) =>
      WordsUnboundFails(ws, name, ctx, sub);
      WordProperties.ConcatIsJoin(ws, ctx, sub);
  }
}
