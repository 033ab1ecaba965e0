/** What the command walker promises: assignments are committed one by one
    in declaration order, an AND/OR list runs every member and reports the
    first error, the top-level loop stops at the first failing command, and
    every refused shape is a syntax error that commits nothing. */
module CommandProperties {
  import opened Wrappers
  import opened Syntax
  import opened Apf
  import opened Words
  import opened Commands

  /* ---------------- Assignments of one simple command ---------------- */

  /** The context after the first `i` entries have each been walked on their
      own, every one in the context the entries before it left. */
  ghost function Committed(entries: seq<RedirectOrEnvVar>, ctx: Context, sub: Substitution, i: nat): Context
    requires i <= |entries|
    decreases i
  {
    if i == 0 then ctx
    else AssignEnvVars([entries[i - 1]], Committed(entries, ctx, sub, i - 1), sub).context
  }

  /** Entry `i` walked on its own in the context the entries before it left. */
  ghost function EntryStep(entries: seq<RedirectOrEnvVar>, ctx: Context, sub: Substitution, i: nat): Effect
    requires i < |entries|
  {
    AssignEnvVars([entries[i]], Committed(entries, ctx, sub, i), sub)
  }

  /** Walking a list of entries is walking its first entry and, if that
      commits, the rest in the context it left. */
  lemma FirstEntry(entries: seq<RedirectOrEnvVar>, ctx: Context, sub: Substitution)
    requires |entries| > 0
    ensures var step := AssignEnvVars([entries[0]], ctx, sub);
            AssignEnvVars(entries, ctx, sub) ==
            if step.result.Err? then step else AssignEnvVars(entries[1..], step.context, sub)
  {
  }

  lemma {:induction false} CommittedShift(entries: seq<RedirectOrEnvVar>, ctx: Context, sub: Substitution, i: nat)
    requires i < |entries|
    ensures Committed(entries, ctx, sub, i + 1) ==
            Committed(entries[1..], AssignEnvVars([entries[0]], ctx, sub).context, sub, i)
    decreases i
  {
    if i > 0 {
      CommittedShift(entries, ctx, sub, i - 1);
      assert entries[1..][i - 1] == entries[i];
    }
  }

  /** Entry `i + 1` steps as entry `i` of the rest does, once the first
      entry has been walked. */
  lemma EntryStepShift(entries: seq<RedirectOrEnvVar>, ctx: Context, sub: Substitution, i: nat)
    requires i + 1 < |entries|
    ensures EntryStep(entries, ctx, sub, i + 1) ==
            EntryStep(entries[1..], AssignEnvVars([entries[0]], ctx, sub).context, sub, i)
  {
    CommittedShift(entries, ctx, sub, i);
    assert entries[1..][i] == entries[i + 1];
  }

  /** The entries of a simple command are committed in declaration order,
      each value evaluated in the context the earlier assignments left, so a
      later value sees an earlier one and a later assignment to a name
      overwrites an earlier one. The walk succeeds exactly when every entry
      does; otherwise it ends at the first failing entry, with that entry's
      error and the context committed before it. */
  lemma {:induction false} AssignmentsCommitInOrder(entries: seq<RedirectOrEnvVar>, ctx: Context, sub: Substitution)
    ensures var r := AssignEnvVars(entries, ctx, sub);
            && (r.result.Ok? <==> forall i :: 0 <= i < |entries| ==> EntryStep(entries, ctx, sub, i).result.Ok?)
            && (r.result.Ok? ==> r.context == Committed(entries, ctx, sub, |entries|))
            && (r.result.Err? ==>
                  exists i :: 0 <= i < |entries| && r == EntryStep(entries, ctx, sub, i) &&
                              forall j :: 0 <= j < i ==> EntryStep(entries, ctx, sub, j).result.Ok?)
    decreases |entries|
  {
    if |entries| > 0 {
      var r := AssignEnvVars(entries, ctx, sub);
      var step := AssignEnvVars([entries[0]], ctx, sub);
      assert step == EntryStep(entries, ctx, sub, 0);
      FirstEntry(entries, ctx, sub);
      if step.result.Ok? {
        var tail := entries[1..];
        var next := step.context;
        AssignmentsCommitInOrder(tail, next, sub);
        forall i | 0 <= i < |tail|
          ensures EntryStep(entries, ctx, sub, i + 1) == EntryStep(tail, next, sub, i)
        {
          EntryStepShift(entries, ctx, sub, i);
        }
        CommittedShift(entries, ctx, sub, |tail|);
        if r.result.Ok? {
          forall i | 0 <= i < |entries|
            ensures EntryStep(entries, ctx, sub, i).result.Ok?
          {
            if i > 0 {
              assert EntryStep(entries, ctx, sub, i) == EntryStep(tail, next, sub, i - 1);
            }
          }
        } else {
          var k :| 0 <= k < |tail| && r == EntryStep(tail, next, sub, k) &&
                   forall j :: 0 <= j < k ==> EntryStep(tail, next, sub, j).result.Ok?;
          assert r == EntryStep(entries, ctx, sub, k + 1);
          forall j | 0 <= j < k + 1
            ensures EntryStep(entries, ctx, sub, j).result.Ok?
          {
            if j > 0 {
              assert EntryStep(entries, ctx, sub, j) == EntryStep(tail, next, sub, j - 1);
            }
          }
          assert !EntryStep(entries, ctx, sub, k + 1).result.Ok?;
        }
      }
    }
  }

  /** An assignment without a value is a syntax error naming the variable;
      the assignments before it stay committed. */
  lemma MissingValueKeepsEarlier(entries: seq<RedirectOrEnvVar>, ctx: Context, sub: Substitution, i: nat)
    requires i < |entries| && entries[i].EnvVar? && entries[i].value.None?
    requires forall j :: 0 <= j < i ==> EntryStep(entries, ctx, sub, j).result.Ok?
    ensures AssignEnvVars(entries, ctx, sub) ==
            Effect(Committed(entries, ctx, sub, i), Err(InvalidSyntax("Variable " + entries[i].name + " without value.")))
  {
    AssignmentsCommitInOrder(entries, ctx, sub);
    var r := AssignEnvVars(entries, ctx, sub);
    assert EntryStep(entries, ctx, sub, i) ==
           Effect(Committed(entries, ctx, sub, i), Err(InvalidSyntax("Variable " + entries[i].name + " without value.")));
    var k :| 0 <= k < |entries| && r == EntryStep(entries, ctx, sub, k) &&
             forall j :: 0 <= j < k ==> EntryStep(entries, ctx, sub, j).result.Ok?;
    assert k == i;
  }

  /** The walk leaves every name no entry assigns as it was, whether or not
      it succeeds. */
  lemma {:induction false} AssignmentsKeepOthers(entries: seq<RedirectOrEnvVar>, ctx: Context, sub: Substitution)
    ensures var r := AssignEnvVars(entries, ctx, sub).context;
            forall k :: k in ctx && k !in AssignedNames(entries) ==> k in r && r[k] == ctx[k]
    decreases |entries|
  {
    if |entries| > 0 && entries[0].EnvVar? && entries[0].value.Some? {
      var v := ComplexWordAsString(entries[0].value.value, ctx, sub);
      if v.Ok? {
        var next := ctx[entries[0].name := v.value];
        AssignmentsKeepOthers(entries[1..], next, sub);
      }
    }
  }

  /** A walk that succeeds began with an assignment whose value evaluated;
      the rest of the walk runs in the context that assignment left. */
  lemma AssignHead(entries: seq<RedirectOrEnvVar>, ctx: Context, sub: Substitution)
    requires |entries| > 0 && AssignEnvVars(entries, ctx, sub).result.Ok?
    ensures entries[0].EnvVar? && entries[0].value.Some?
    ensures var v := ComplexWordAsString(entries[0].value.value, ctx, sub);
            && v.Ok?
            && AssignEnvVars([entries[0]], ctx, sub).context == ctx[entries[0].name := v.value]
            && AssignEnvVars(entries, ctx, sub) == AssignEnvVars(entries[1..], ctx[entries[0].name := v.value], sub)
  {
  }

  /** A walk that succeeds binds the name of entry `i`, when no later entry
      assigns it again, to the value of that entry's word evaluated in the
      context the entries before it left. */
  lemma {:induction false} AssignmentsBindValues(entries: seq<RedirectOrEnvVar>, ctx: Context, sub: Substitution, i: nat)
    requires i < |entries| && AssignEnvVars(entries, ctx, sub).result.Ok?
    requires entries[i].name !in AssignedNames(entries[i + 1..])
    ensures ComplexWordAsString(entries[i].value.value, Committed(entries, ctx, sub, i), sub) ==
            Ok(AssignEnvVars(entries, ctx, sub).context[entries[i].name])
    decreases i
  {
    AssignHead(entries, ctx, sub);
    var v := ComplexWordAsString(entries[0].value.value, ctx, sub);
    var next := ctx[entries[0].name := v.value];
    var tail := entries[1..];
    if i == 0 {
      AssignmentsKeepOthers(tail, next, sub);
    } else {
      assert tail[i - 1] == entries[i];
      assert tail[i..] == entries[i + 1..];
      AssignmentsBindValues(tail, next, sub, i - 1);
      CommittedShift(entries, ctx, sub, i - 1);
    }
  }

  /** `A='t' B=$A` binds both names to `t`: the second value reads the first. */
  lemma LaterValueSeesEarlier(a: string, b: string, t: string, ctx: Context, sub: Substitution)
    ensures AssignEnvVars([EnvVar(a, Some(ComplexWord.Single(SingleQuoted(t)))),
                           EnvVar(b, Some(ComplexWord.Single(Word.Simple(Param(Var(a))))))], ctx, sub) ==
            Effect(ctx[a := t][b := t], Ok(()))
  {
    var first := EnvVar(a, Some(ComplexWord.Single(SingleQuoted(t))));
    var second := EnvVar(b, Some(ComplexWord.Single(Word.Simple(Param(Var(a))))));
    var after := ctx[a := t];
    assert ComplexWordAsString(first.value.value, ctx, sub) == Ok(t);
    assert SimpleWordAsString(Param(Var(a)), after, sub) == Ok(t);
    assert WordAsString(Word.Simple(Param(Var(a))), after, sub) == Ok(t);
    assert ComplexWordAsString(second.value.value, after, sub) == Ok(t);
    assert [first, second][1..] == [second];
    assert AssignEnvVars([second], after, sub) == AssignEnvVars([], after[b := t], sub);
  }

  /** `names[0]=texts[0] names[1]=texts[1] …` with plain literal values. */
  function LiteralAssignments(names: seq<string>, texts: seq<string>): (entries: seq<RedirectOrEnvVar>)
    requires |names| == |texts|
  {
    seq(|names|, i requires 0 <= i < |names| => EnvVar(names[i], Some(ComplexWord.Single(Word.Simple(Literal(texts[i]))))))
  }

  /** The first literal assignment commits its text and hands on. */
  lemma LiteralHead(names: seq<string>, texts: seq<string>, ctx: Context, sub: Substitution)
    requires |names| == |texts| > 0
    ensures AssignEnvVars(LiteralAssignments(names, texts), ctx, sub) ==
            AssignEnvVars(LiteralAssignments(names[1..], texts[1..]), ctx[names[0] := texts[0]], sub)
  {
    var entries := LiteralAssignments(names, texts);
    var w := ComplexWord.Single(Word.Simple(Literal(texts[0])));
    assert entries[0] == EnvVar(names[0], Some(w));
    assert WordAsString(w.word, ctx, sub) == Ok(texts[0]);
    assert entries[1..] == LiteralAssignments(names[1..], texts[1..]);
  }

  /** Assignments of plain literal values succeed and bind exactly the
      names bound before plus those assigned. */
  lemma {:induction false} LiteralAssignmentsBind(names: seq<string>, texts: seq<string>, ctx: Context, sub: Substitution)
    requires |names| == |texts|
    ensures AssignEnvVars(LiteralAssignments(names, texts), ctx, sub).result.Ok?
    ensures AssignEnvVars(LiteralAssignments(names, texts), ctx, sub).context.Keys == ctx.Keys + set n | n in names
    decreases |names|
  {
    if |names| > 0 {
      LiteralHead(names, texts, ctx, sub);
      LiteralAssignmentsBind(names[1..], texts[1..], ctx[names[0] := texts[0]], sub);
      assert (set n | n in names) == {names[0]} + (set n | n in names[1..]) by {
        assert names == [names[0]] + names[1..];
      }
    }
  }

  /** After assignments of plain literal values, each assigned name holds
      the text of its last assignment: a later assignment overwrites an
      earlier one. */
  lemma {:induction false} LiteralAssignmentsLastWriteWins(names: seq<string>, texts: seq<string>, ctx: Context, sub: Substitution)
    requires |names| == |texts|
    ensures var r := AssignEnvVars(LiteralAssignments(names, texts), ctx, sub).context;
            forall i :: 0 <= i < |names| && (forall j :: i < j < |names| ==> names[j] != names[i]) ==>
              names[i] in r && r[names[i]] == texts[i]
    decreases |names|
  {
    if |names| > 0 {
      var next := ctx[names[0] := texts[0]];
      LiteralHead(names, texts, ctx, sub);
      LiteralAssignmentsLastWriteWins(names[1..], texts[1..], next, sub);
      LiteralAssignmentsKeepOthers(names[1..], texts[1..], next, sub);
      var r := AssignEnvVars(LiteralAssignments(names[1..], texts[1..]), next, sub).context;
      forall i | 0 <= i < |names| && (forall j :: i < j < |names| ==> names[j] != names[i])
        ensures names[i] in r && r[names[i]] == texts[i]
      {
        if i == 0 {
          assert names[0] !in names[1..];
        } else {
          assert names[1..][i - 1] == names[i];
          forall j | i - 1 < j < |names[1..]|
            ensures names[1..][j] != names[1..][i - 1]
          {
            assert names[1..][j] == names[j + 1];
          }
        }
      }
    }
  }

  /** Assignments of plain literal values leave every name they do not
      assign as it was. */
  lemma {:induction false} LiteralAssignmentsKeepOthers(names: seq<string>, texts: seq<string>, ctx: Context, sub: Substitution)
    requires |names| == |texts|
    ensures var r := AssignEnvVars(LiteralAssignments(names, texts), ctx, sub).context;
            forall k :: k in ctx && k !in names ==> k in r && r[k] == ctx[k]
    decreases |names|
  {
    if |names| > 0 {
      LiteralHead(names, texts, ctx, sub);
      LiteralAssignmentsKeepOthers(names[1..], texts[1..], ctx[names[0] := texts[0]], sub);
    }
  }

  /* ---------------- Refused shapes ---------------- */

  /** A listable command the walker refuses whatever the context: a pipe, a
      compound command, a function definition, or a simple command with
      command words or a redirect. */
  predicate Refused(c: ListableCommand) {
    || c.Pipe?
    || c.cmd.Compound?
    || c.cmd.FunctionDef?
    || (c.cmd.Simple? && (|c.cmd.cmd.redirectsOrCmdWords| > 0 || HasRedirect(c.cmd.cmd.redirectsOrEnvVars)))
  }

  /** Every refused shape is a syntax error and commits nothing, not even
      the assignments a refused simple command carries. */
  lemma RefusedCommitsNothing(c: ListableCommand, ctx: Context, sub: Substitution)
    requires Refused(c)
    ensures ArgsListable(c, ctx, sub).context == ctx
    ensures ArgsListable(c, ctx, sub).result.Err? && ArgsListable(c, ctx, sub).result.error.InvalidSyntax?
  {
  }

  /* ---------------- AND/OR lists ---------------- */

  /** The context after the first `i` members of a list have run, each in
      the context the members before it left, whether they failed or not. */
  ghost function ListContext(cmds: seq<ListableCommand>, ctx: Context, sub: Substitution, i: nat): Context
    requires i <= |cmds|
    decreases i
  {
    if i == 0 then ctx
    else ArgsListable(cmds[i - 1], ListContext(cmds, ctx, sub, i - 1), sub).context
  }

  /** Member `i` run in the context the members before it left. */
  ghost function MemberRun(cmds: seq<ListableCommand>, ctx: Context, sub: Substitution, i: nat): Effect
    requires i < |cmds|
  {
    ArgsListable(cmds[i], ListContext(cmds, ctx, sub, i), sub)
  }

  lemma {:induction false} ListContextShift(cmds: seq<ListableCommand>, ctx: Context, sub: Substitution, i: nat)
    requires i < |cmds|
    ensures ListContext(cmds, ctx, sub, i + 1) ==
            ListContext(cmds[1..], ArgsListable(cmds[0], ctx, sub).context, sub, i)
    decreases i
  {
    if i > 0 {
      ListContextShift(cmds, ctx, sub, i - 1);
      assert cmds[1..][i - 1] == cmds[i];
    }
  }

  /** Member `i + 1` runs as member `i` of the rest does, once the first
      member has run. */
  lemma MemberRunShift(cmds: seq<ListableCommand>, ctx: Context, sub: Substitution, i: nat)
    requires i + 1 < |cmds|
    ensures MemberRun(cmds, ctx, sub, i + 1) ==
            MemberRun(cmds[1..], ArgsListable(cmds[0], ctx, sub).context, sub, i)
  {
    ListContextShift(cmds, ctx, sub, i);
    assert cmds[1..][i] == cmds[i + 1];
  }

  /** Every member of an AND/OR list runs, in order, against the shared
      context, whether or not an earlier one failed: the final context holds
      the effects of all of them. The list succeeds exactly when every member
      does, and otherwise reports the error of the first failing member. */
  lemma {:induction false} ListRunsEveryMember(cmds: seq<ListableCommand>, ctx: Context, sub: Substitution)
    ensures var r := ListablesRun(cmds, ctx, sub);
            && r.context == ListContext(cmds, ctx, sub, |cmds|)
            && (r.result.Ok? <==> forall i :: 0 <= i < |cmds| ==> MemberRun(cmds, ctx, sub, i).result.Ok?)
            && (r.result.Err? ==>
                  exists i :: 0 <= i < |cmds| && r.result == MemberRun(cmds, ctx, sub, i).result &&
                              forall j :: 0 <= j < i ==> MemberRun(cmds, ctx, sub, j).result.Ok?)
    decreases |cmds|
  {
    if |cmds| > 0 {
      var r := ListablesRun(cmds, ctx, sub);
      var first := ArgsListable(cmds[0], ctx, sub);
      var tail := cmds[1..];
      var next := first.context;
      assert first == MemberRun(cmds, ctx, sub, 0);
      ListRunsEveryMember(tail, next, sub);
      var rest := ListablesRun(tail, next, sub);
      forall i | 0 <= i < |tail|
        ensures MemberRun(cmds, ctx, sub, i + 1) == MemberRun(tail, next, sub, i)
      {
        MemberRunShift(cmds, ctx, sub, i);
      }
      ListContextShift(cmds, ctx, sub, |tail|);
      if r.result.Ok? {
        forall i | 0 <= i < |cmds|
          ensures MemberRun(cmds, ctx, sub, i).result.Ok?
        {
          if i > 0 {
            assert MemberRun(cmds, ctx, sub, i) == MemberRun(tail, next, sub, i - 1);
          }
        }
      } else if first.result.Ok? {
        var k :| 0 <= k < |tail| && rest.result == MemberRun(tail, next, sub, k).result &&
                 forall j :: 0 <= j < k ==> MemberRun(tail, next, sub, j).result.Ok?;
        assert r.result == MemberRun(cmds, ctx, sub, k + 1).result;
        forall j | 0 <= j < k + 1
          ensures MemberRun(cmds, ctx, sub, j).result.Ok?
        {
          if j > 0 {
            assert MemberRun(cmds, ctx, sub, j) == MemberRun(tail, next, sub, j - 1);
          }
        }
      }
    }
  }

  /** `&&` and `||` are not told apart: exchanging the connectives of a list
      changes nothing, since neither short-circuits. */
  lemma AndOrAlike(first: ListableCommand, rest1: seq<AndOr>, rest2: seq<AndOr>, ctx: Context, sub: Substitution)
    requires |rest1| == |rest2| && forall i :: 0 <= i < |rest1| ==> rest1[i].cmd == rest2[i].cmd
    ensures ArgsTopLevel(List(AndOrList(first, rest1)), ctx, sub) == ArgsTopLevel(List(AndOrList(first, rest2)), ctx, sub)
  {
    assert Members(AndOrList(first, rest1)) == Members(AndOrList(first, rest2));
  }

  /** A refused member anywhere in an AND/OR list makes the whole top-level
      command fail, whatever assignments surround it; when every member
      before it succeeds, the failure is the refused member's syntax error. */
  lemma RefusedMemberFailsList(list: AndOrList, ctx: Context, sub: Substitution, d: nat)
    requires d < |Members(list)| && Refused(Members(list)[d])
    ensures ArgsTopLevel(List(list), ctx, sub).result.Err?
    ensures (forall j :: 0 <= j < d ==> MemberRun(Members(list), ctx, sub, j).result.Ok?) ==>
              ArgsTopLevel(List(list), ctx, sub).result == MemberRun(Members(list), ctx, sub, d).result
    ensures MemberRun(Members(list), ctx, sub, d).result.error.InvalidSyntax?
  {
    var cmds := Members(list);
    ListRunsEveryMember(cmds, ctx, sub);
    RefusedCommitsNothing(cmds[d], ListContext(cmds, ctx, sub, d), sub);
    assert !MemberRun(cmds, ctx, sub, d).result.Ok?;
    var r := ListablesRun(cmds, ctx, sub);
    if forall j :: 0 <= j < d ==> MemberRun(cmds, ctx, sub, j).result.Ok? {
      var k :| 0 <= k < |cmds| && r.result == MemberRun(cmds, ctx, sub, k).result &&
               forall j :: 0 <= j < k ==> MemberRun(cmds, ctx, sub, j).result.Ok?;
      assert k == d;
    }
  }

  /* ---------------- The top-level loop ---------------- */

  /** Once a prefix of the input fails, nothing after it is looked at: the
      outcome, committed context included, is that of the prefix. */
  lemma {:induction false} ParseStopsAtFirstError(s: seq<Result<TopLevelCommand, string>>, t: seq<Result<TopLevelCommand, string>>,
                                                  ctx: Context, sub: Substitution)
    requires Parse(s, ctx, sub).result.Err?
    ensures Parse(s + t, ctx, sub) == Parse(s, ctx, sub)
    decreases |s|
  {
    assert (s + t)[0] == s[0];
    assert (s + t)[1..] == s[1..] + t;
    if s[0].Ok? {
      var r := ArgsTopLevel(s[0].value, ctx, sub);
      if r.result.Ok? {
        ParseStopsAtFirstError(s[1..], t, r.context, sub);
      }
    }
  }

  /** A prefix that succeeds hands its context on: the rest of the input is
      walked in the context the prefix left. */
  lemma {:induction false} ParseComposes(s: seq<Result<TopLevelCommand, string>>, t: seq<Result<TopLevelCommand, string>>,
                                         ctx: Context, sub: Substitution)
    requires Parse(s, ctx, sub).result.Ok?
    ensures Parse(s + t, ctx, sub) == Parse(t, Parse(s, ctx, sub).context, sub)
    decreases |s|
  {
    if |s| == 0 {
      assert s + t == t;
    } else {
      assert (s + t)[0] == s[0];
      assert (s + t)[1..] == s[1..] + t;
      var r := ArgsTopLevel(s[0].value, ctx, sub);
      ParseComposes(s[1..], t, r.context, sub);
    }
  }

  /** An input item the loop can never get past: a parser error, a job, or
      an AND/OR list with a refused member. */
  predicate RefusedItem(item: Result<TopLevelCommand, string>) {
    || item.Err?
    || item.value.Job?
    || exists d :: 0 <= d < |Members(item.value.list)| && Refused(Members(item.value.list)[d])
  }

  /** An input with a refused item anywhere fails, whatever comes before or
      after it. */
  lemma RefusedItemFailsParse(items: seq<Result<TopLevelCommand, string>>, ctx: Context, sub: Substitution, i: nat)
    requires i < |items| && RefusedItem(items[i])
    ensures Parse(items, ctx, sub).result.Err?
  {
    var s := items[..i];
    var t := items[i..];
    assert items == s + t;
    if Parse(s, ctx, sub).result.Err? {
      ParseStopsAtFirstError(s, t, ctx, sub);
    } else {
      ParseComposes(s, t, ctx, sub);
      var c := Parse(s, ctx, sub).context;
      assert t[0] == items[i];
      if items[i].Ok? && items[i].value.List? {
        var d :| 0 <= d < |Members(items[i].value.list)| && Refused(Members(items[i].value.list)[d]);
        RefusedMemberFailsList(items[i].value.list, c, sub, d);
      }
    }
  }

  /** A parser error reached after input `s` that succeeds fails the whole
      input with the parser's message, whatever input `t` follows. */
  lemma ParserErrorFailsParse(s: seq<Result<TopLevelCommand, string>>, message: string, t: seq<Result<TopLevelCommand, string>>,
                              ctx: Context, sub: Substitution)
    requires Parse(s, ctx, sub).result.Ok?
    ensures Parse(s + [Err(message)] + t, ctx, sub) == Effect(Parse(s, ctx, sub).context, Err(InvalidSyntax(message)))
  {
    var rest := [Err(message)] + t;
    assert s + [Err(message)] + t == s + rest;
    ParseComposes(s, rest, ctx, sub);
    assert rest[0] == Err(message);
  }

  /** A job reached after input `s` that succeeds fails the whole input with
      the job refusal and commits nothing of its own, whatever input `t`
      follows. */
  lemma JobFailsParse(s: seq<Result<TopLevelCommand, string>>, list: AndOrList, t: seq<Result<TopLevelCommand, string>>,
                      ctx: Context, sub: Substitution)
    requires Parse(s, ctx, sub).result.Ok?
    ensures Parse(s + [Ok(Job(list))] + t, ctx, sub) ==
            Effect(Parse(s, ctx, sub).context, Err(InvalidSyntax("Syntax error: job not allowed.")))
  {
    var rest := [Ok(Job(list))] + t;
    assert s + [Ok(Job(list))] + t == s + rest;
    ParseComposes(s, rest, ctx, sub);
    assert rest[0] == Ok(Job(list));
  }

  /** A list whose member `d` is refused, reached after input `s` that
      succeeds and after members that succeed, fails the whole input with
      that member's syntax error, whatever input `t` follows. */
  lemma RefusedMemberFailsParse(s: seq<Result<TopLevelCommand, string>>, list: AndOrList, t: seq<Result<TopLevelCommand, string>>,
                                ctx: Context, sub: Substitution, d: nat)
    requires d < |Members(list)| && Refused(Members(list)[d])
    requires Parse(s, ctx, sub).result.Ok?
    requires forall j :: 0 <= j < d ==> MemberRun(Members(list), Parse(s, ctx, sub).context, sub, j).result.Ok?
    ensures Parse(s + [Ok(List(list))] + t, ctx, sub).result ==
            MemberRun(Members(list), Parse(s, ctx, sub).context, sub, d).result
    ensures Parse(s + [Ok(List(list))] + t, ctx, sub).result.Err?
    ensures Parse(s + [Ok(List(list))] + t, ctx, sub).result.error.InvalidSyntax?
  {
    var rest := [Ok(List(list))] + t;
    assert s + [Ok(List(list))] + t == s + rest;
    ParseComposes(s, rest, ctx, sub);
    var c := Parse(s, ctx, sub).context;
    RefusedMemberFailsList(list, c, sub, d);
    assert rest[0] == Ok(List(list));
  }

  /** One command per line: a script of single-assignment commands has the
      effect of one command carrying all those assignments in order. */
  function AssignmentLine(e: RedirectOrEnvVar): Result<TopLevelCommand, string> {
    Ok(List(AndOrList(ListableCommand.Single(PipeableCommand.Simple(SimpleCommand([e], []))), [])))
  }

  lemma {:induction false} LinePerAssignment(entries: seq<RedirectOrEnvVar>, ctx: Context, sub: Substitution)
    ensures Parse(seq(|entries|, i requires 0 <= i < |entries| => AssignmentLine(entries[i])), ctx, sub) ==
            AssignEnvVars(entries, ctx, sub)
    decreases |entries|
  {
    var items := seq(|entries|, i requires 0 <= i < |entries| => AssignmentLine(entries[i]));
    if |entries| > 0 {
      var e := entries[0];
      var step := AssignEnvVars([e], ctx, sub);
      var cmd := SimpleCommand([e], []);
      assert items[0] == AssignmentLine(e);
      assert ArgsSimple(cmd, ctx, sub) == step;
      assert Members(AndOrList(ListableCommand.Single(PipeableCommand.Simple(cmd)), [])) == [ListableCommand.Single(PipeableCommand.Simple(cmd))];
      assert ListablesRun([ListableCommand.Single(PipeableCommand.Simple(cmd))], ctx, sub) == step;
      FirstEntry(entries, ctx, sub);
      if step.result.Ok? {
        LinePerAssignment(entries[1..], step.context, sub);
        assert items[1..] == seq(|entries[1..]|, i requires 0 <= i < |entries[1..]| => AssignmentLine(entries[1..][i]));
      }
    }
  }

  /* ---------------- Worked inputs ---------------- */

  /** `A=foo | B=bar` is refused as a pipe and commits neither assignment. */
  lemma PipeExample(ctx: Context, sub: Substitution)
    ensures Parse([Ok(List(AndOrList(Pipe(false, [PipeableCommand.Simple(SimpleCommand([EnvVar("A", Some(ComplexWord.Single(Word.Simple(Literal("foo")))))], [])),
                                                   PipeableCommand.Simple(SimpleCommand([EnvVar("B", Some(ComplexWord.Single(Word.Simple(Literal("bar")))))], []))]),
                                     [])))], ctx, sub) ==
            Effect(ctx, Err(InvalidSyntax("Pipe not allowed")))
  {
    var pipe := Pipe(false, [PipeableCommand.Simple(SimpleCommand([EnvVar("A", Some(ComplexWord.Single(Word.Simple(Literal("foo")))))], [])),
                             PipeableCommand.Simple(SimpleCommand([EnvVar("B", Some(ComplexWord.Single(Word.Simple(Literal("bar")))))], []))]);
    assert Members(AndOrList(pipe, [])) == [pipe];
    assert ListablesRun([pipe], ctx, sub) == Effect(ctx, Err(InvalidSyntax("Pipe not allowed")));
  }

  /** `B=${UNDEFINED}` with `UNDEFINED` unbound fails with a context error
      and commits nothing. The reason the source gives does not name the
      variable. */
  lemma UndefinedExample(ctx: Context, sub: Substitution)
    requires "UNDEFINED" !in ctx
    ensures Parse([AssignmentLine(EnvVar("B", Some(ComplexWord.Single(Word.Simple(Param(Var("UNDEFINED")))))))], ctx, sub) ==
            Effect(ctx, Err(ContextError("Param variable not found.")))
  {
    var w := ComplexWord.Single(Word.Simple(Param(Var("UNDEFINED"))));
    var line := ListableCommand.Single(PipeableCommand.Simple(SimpleCommand([EnvVar("B", Some(w))], [])));
    assert ComplexWordAsString(w, ctx, sub) == Err(ContextError("Param variable not found."));
    assert Members(AndOrList(line, [])) == [line];
    assert ListablesRun([line], ctx, sub) == Effect(ctx, Err(ContextError("Param variable not found.")));
  }
}
