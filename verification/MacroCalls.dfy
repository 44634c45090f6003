/** What a call of a function-like macro stands for, told from its text: the
    arguments between the commas, the contribution of each piece of the list, and
    the calls that are errors. */
module MacroCalls {
  import opened MacroExpand

  /** No parenthesis is closed that was not opened here, none is left open, and a comma
      stands inside parentheses, except in the variable arguments. */
  predicate Balanced(a: seq<Tok>, level: nat, va: bool) {
    if a == [] then level == 0
    else match a[0]
      case LParen => Balanced(a[1..], level + 1, va)
      case RParen => level > 0 && Balanced(a[1..], level - 1, va)
      case Comma => (level > 0 || va) && Balanced(a[1..], level, va)
      case _ => Balanced(a[1..], level, va)
  }

  /** The arguments with commas between them. */
  function WithCommas(args: seq<seq<Tok>>): seq<Tok> {
    if args == [] then [] else if |args| == 1 then args[0] else args[0] + ([Comma] + WithCommas(args[1..]))
  }

  /** n ( a1 , .. , ak ) */
  function Call(n: nat, args: seq<seq<Tok>>): seq<Tok> { [Id(n), LParen] + WithCommas(args) + [RParen] }

  /** Each can stand between the commas; the last one may hold commas when it is the
      variable arguments. */
  ghost predicate Proper(args: seq<seq<Tok>>, arity: nat, va: bool) {
    args != [] && forall i :: 0 <= i < |args| ==> Balanced(args[i], 0, va && i == arity - 1)
  }

  /** The text gives these arguments: all of them; or none, or a comma too many before
      the parenthesis; or, as an extension, all but the variable arguments. */
  ghost predicate Gives(text: seq<seq<Tok>>, args: seq<seq<Tok>>, va: bool, gnu: bool) {
    || text == args
    || (!va && text == args + NONE)
    || (va && gnu && args == text + NONE)
  }

  const NONE: seq<seq<Tok>> := [[]]

  /** What one piece of the list is replaced by: xs are the expanded arguments. */
  function Contribution(p: Piece, args: seq<seq<Tok>>, xs: seq<seq<Tok>>, env: Env): seq<Tok>
    requires |xs| == |args| && (p.Lit? || p.i < |args|)
  {
    match p
    case Lit(t) => [t]
    case Param(i) => xs[i]
    case Raw(i) => if args[i] == [] then [env.placeholder] else args[i]
    case Str(i) => [env.stringize(args[i])]
    case CommaArgs(i) => if args[i] == [] then [] else [Comma] + xs[i]
  }

  /** Every parameter of the list is one of the macro's. */
  predicate InArity(pieces: seq<Piece>, arity: nat) { forall p :: p in pieces ==> p.Lit? || p.i < arity }

  function Written(pieces: seq<Piece>, args: seq<seq<Tok>>, xs: seq<seq<Tok>>, env: Env): seq<Tok>
    requires |xs| == |args| && InArity(pieces, |args|)
  {
    if pieces == [] then [] else Contribution(pieces[0], args, xs, env) + Written(pieces[1..], args, xs, env)
  }

  /** The list as it is rescanned. */
  function Filled(f: Macro, args: seq<seq<Tok>>, xs: seq<seq<Tok>>, env: Env): seq<Tok>
    requires f.Fun? && |xs| == |args| && InArity(f.pieces, |args|)
  {
    var w := Written(f.pieces, args, xs, env);
    if f.join then env.paste(w) else w
  }

  ghost predicate Expanded(args: seq<seq<Tok>>, xs: seq<seq<Tok>>, nested: set<nat>, env: Env) {
    |xs| == |args| && forall i :: 0 <= i < |args| ==> Subst(args[i], Eof, nested, env) == Done(xs[i])
  }

  // ---- taking the arguments --------------------------------------------------------------

  /** An argument ends at its comma or parenthesis. */
  lemma {:induction false} TakesOne(a: seq<Tok>, level: nat, va: bool, closer: Tok, rest: seq<Tok>)
    requires Balanced(a, level, va) && (closer == RParen || (closer == Comma && !va))
    ensures TakeArg(a + ([closer] + rest), level, va) == Arg(a, closer, rest)
  {
    var ts := a + ([closer] + rest);
    if a == [] {
      assert ts == [closer] + rest && ts[1..] == rest;
    } else {
      var next := if a[0] == LParen then level + 1 else if a[0] == RParen then level - 1 else level;
      assert ts[1..] == a[1..] + ([closer] + rest) && [a[0]] + a[1..] == a;
      TakesOne(a[1..], next, va, closer, rest);
    }
  }

  lemma ProperTail(text: seq<seq<Tok>>, arity: nat, va: bool)
    requires Proper(text, arity, va) && |text| > 1
    ensures arity > 0 ==> Proper(text[1..], arity - 1, va)
    ensures arity == 0 ==> Proper(text[1..], 0, va)
  {
    forall i | 0 <= i < |text| - 1 ensures Balanced(text[1..][i], 0, va && i == arity - 2) {
      assert text[1..][i] == text[i + 1];
      assert Balanced(text[i + 1], 0, va && i + 1 == arity - 1);
    }
  }

  lemma Split(text: seq<seq<Tok>>, tail: seq<Tok>)
    requires text != []
    ensures var a, after := text[0], WithCommas(text) + [RParen] + tail;
            if |text| == 1 then after == a + ([RParen] + tail)
            else after == a + ([Comma] + (WithCommas(text[1..]) + [RParen] + tail))
  {
    if |text| == 1 {
      Assoc(text[0], [RParen], tail);
    } else {
      var more := WithCommas(text[1..]);
      Assoc(text[0], [Comma] + more, [RParen]);
      Assoc(text[0], [Comma] + more + [RParen], tail);
      Assoc([Comma], more, [RParen]);
      Assoc([Comma], more + [RParen], tail);
    }
  }

  lemma Assoc(a: seq<Tok>, b: seq<Tok>, c: seq<Tok>)
    ensures (a + b) + c == a + (b + c)
  {}

  /** The arguments the text gives are the ones that are taken. */
  lemma {:induction false} TakesGiven(text: seq<seq<Tok>>, args: seq<seq<Tok>>, va: bool, gnu: bool, tail: seq<Tok>)
    requires Proper(text, |args|, va) && Gives(text, args, va, gnu) && (va ==> args != [])
    ensures TakeArgs(WithCommas(text) + [RParen] + tail, |args|, va, gnu) == Args(args, tail)
    decreases |text|
  {
    hide TakeArg, WithCommas, Balanced;
    var a := text[0];
    Split(text, tail);
    assert Balanced(text[0], 0, va && 0 == |args| - 1);
    if args == [] {
      assert text == NONE && a + ([RParen] + tail) == [RParen] + tail && ([RParen] + tail)[1..] == tail;
    } else if |text| == 1 {
      hide Proper;
      TakesOne(a, 0, va && |args| == 1, RParen, tail);
      TakesLast(a, args, va, gnu, tail);
    } else {
      ProperTail(text, |args|, va);
      NotLast(text, args, va, gnu);
      hide Proper, Gives;
      TakesOne(a, 0, false, Comma, WithCommas(text[1..]) + [RParen] + tail);
      TakesGiven(text[1..], args[1..], va, gnu, tail);
      TakesFirst(a, WithCommas(text[1..]) + [RParen] + tail, args, va, gnu, tail);
    }
  }

  lemma TakesFirst(a: seq<Tok>, rest: seq<Tok>, args: seq<seq<Tok>>, va: bool, gnu: bool, tail: seq<Tok>)
    requires args != [] && args[0] == a && TakeArgs(rest, |args| - 1, va, gnu) == Args(args[1..], tail)
    requires TakeArg(a + ([Comma] + rest), 0, va && |args| == 1) == Arg(a, Comma, rest)
    ensures TakeArgs(a + ([Comma] + rest), |args|, va, gnu) == Args(args, tail)
  {
    hide TakeArg;
    assert [a] + args[1..] == args;
  }

  lemma TakesLast(a: seq<Tok>, args: seq<seq<Tok>>, va: bool, gnu: bool, tail: seq<Tok>)
    requires args != [] && Gives([a], args, va, gnu)
    requires TakeArg(a + ([RParen] + tail), 0, va && |args| == 1) == Arg(a, RParen, tail)
    ensures TakeArgs(a + ([RParen] + tail), |args|, va, gnu) == Args(args, tail)
  {
    hide TakeArg;
    assert args == [a] || args == [a, []];
  }

  lemma NotLast(text: seq<seq<Tok>>, args: seq<seq<Tok>>, va: bool, gnu: bool)
    requires Gives(text, args, va, gnu) && |text| > 1 && args != []
    ensures args[0] == text[0] && Gives(text[1..], args[1..], va, gnu) && (va ==> |args| > 1)
  {
    if text == args + NONE {
      assert text[1..] == args[1..] + NONE;
    } else if args == text + NONE {
      assert args[1..] == text[1..] + NONE;
    }
  }

  /** What is taken as an argument is balanced, and the text is the argument, its comma or
      parenthesis, and the rest. */
  lemma {:induction false} TakenIsBalanced(ts: seq<Tok>, level: nat, va: bool)
    ensures var r := TakeArg(ts, level, va);
            r.Arg? ==> ts == r.arg + ([r.closer] + r.rest) && Balanced(r.arg, level, va) && (r.closer == RParen || (r.closer == Comma && !va))
  {
    if ts != [] {
      if level == 0 && (ts[0] == RParen || (ts[0] == Comma && !va)) {
        assert [ts[0]] + ts[1..] == ts;
      } else {
        var next := if ts[0] == LParen then level + 1 else if ts[0] == RParen then level - 1 else level;
        TakenIsBalanced(ts[1..], next, va);
        var r := TakeArg(ts[1..], next, va);
        if r.Arg? {
          Assoc([ts[0]], r.arg, [r.closer] + r.rest);
          assert ([ts[0]] + r.arg)[1..] == r.arg && [ts[0]] + ts[1..] == ts;
        }
      }
    }
  }

  // ---- filling the list ------------------------------------------------------------------

  /** The pieces' contributions, in order. */
  lemma {:induction false} FillsAsWritten(pieces: seq<Piece>, args: seq<seq<Tok>>, xs: seq<seq<Tok>>, nested: set<nat>, env: Env, bound: nat)
    requires Total(args) < bound && Expanded(args, xs, nested, env) && InArity(pieces, |args|)
    ensures Fill(pieces, args, nested, env, bound) == Done(Written(pieces, args, xs, env))
    decreases |pieces|
  {
    hide Subst;
    if pieces != [] {
      assert pieces[0] in pieces;
      FillsAsWritten(pieces[1..], args, xs, nested, env, bound);
    }
  }

  /** A call, for every list, all arguments and whatever follows: the arguments' text or
      their expansions in the places of the list, rescanned with the macro's name
      guarded, and then the text behind the call. */
  lemma CallMeans(n: nat, text: seq<seq<Tok>>, args: seq<seq<Tok>>, xs: seq<seq<Tok>>, tail: seq<Tok>, end: End, nested: set<nat>, env: Env)
    requires n in env.defs && n !in nested && env.defs[n].Fun? && env.defs[n].arity == |args|
    requires InArity(env.defs[n].pieces, |args|) && (env.defs[n].va ==> args != [])
    requires Proper(text, |args|, env.defs[n].va) && Gives(text, args, env.defs[n].va, env.gnu)
    requires Expanded(args, xs, nested, env)
    ensures Subst(Call(n, text) + tail, end, nested, env) ==
            Subst(Filled(env.defs[n], args, xs, env), Enclosed, nested + {n}, env).Then(Subst(tail, end, nested, env))
  {
    hide SubstTok, Fill, TakeArgs, Filled, Written, Proper, Gives, Expanded;
    var stream := [LParen] + (WithCommas(text) + [RParen] + tail);
    assert Call(n, text) + tail == [Id(n)] + stream && ([Id(n)] + stream)[1..] == stream;
    assert stream[1..] == WithCommas(text) + [RParen] + tail;
    TakesGiven(text, args, env.defs[n].va, env.gnu, tail);
    ReplacedBy(n, stream, args, xs, tail, end, nested, env);
  }

  lemma ReplacedBy(n: nat, stream: seq<Tok>, args: seq<seq<Tok>>, xs: seq<seq<Tok>>, tail: seq<Tok>, end: End, nested: set<nat>, env: Env)
    requires n in env.defs && n !in nested && env.defs[n].Fun? && InArity(env.defs[n].pieces, |args|)
    requires stream != [] && stream[0] == LParen && Expanded(args, xs, nested, env)
    requires TakeArgs(stream[1..], env.defs[n].arity, env.defs[n].va, env.gnu) == Args(args, tail)
    ensures SubstTok(n, stream, end, nested, env) ==
            Called(Subst(Filled(env.defs[n], args, xs, env), Enclosed, nested + {n}, env), tail)
  {
    hide Subst, Fill, TakeArgs, Written, Expanded;
    FillsAsWritten(env.defs[n].pieces, args, xs, nested, env, |stream| - 1);
  }

  /** The name of an object-like macro, for every list and whatever follows. */
  lemma ObjectMeans(n: nat, tail: seq<Tok>, end: End, nested: set<nat>, env: Env)
    requires n in env.defs && n !in nested && env.defs[n].Obj?
    ensures Subst([Id(n)] + tail, end, nested, env) ==
            Subst(List(n, env), Enclosed, nested + {n}, env).Then(Subst(tail, end, nested, env))
  {
    assert ([Id(n)] + tail)[1..] == tail;
  }

  // ---- lists and arguments without names ---------------------------------------------------

  /** No token names a macro. */
  predicate NoNames(ts: seq<Tok>, env: Env) { forall t :: t in ts && t.Id? ==> t.n !in env.defs }

  lemma {:induction false} NoNamesStay(ts: seq<Tok>, end: End, nested: set<nat>, env: Env)
    requires NoNames(ts, env)
    ensures Subst(ts, end, nested, env) == Done(ts)
  {
    hide SubstTok;
    if ts != [] {
      assert ts[0] in ts && [ts[0]] + ts[1..] == ts;
      NoNamesStay(ts[1..], end, nested, env);
    }
  }

  /** Where neither the arguments nor the filled list name a macro, a call is its list
      with the arguments in their places. */
  lemma CallWritesItsList(n: nat, text: seq<seq<Tok>>, args: seq<seq<Tok>>, tail: seq<Tok>, env: Env)
    requires n in env.defs && env.defs[n].Fun? && env.defs[n].arity == |args|
    requires InArity(env.defs[n].pieces, |args|) && (env.defs[n].va ==> args != [])
    requires Proper(text, |args|, env.defs[n].va) && Gives(text, args, env.defs[n].va, env.gnu)
    requires (forall a :: a in args ==> NoNames(a, env)) && NoNames(Filled(env.defs[n], args, args, env), env)
    ensures Subst(Call(n, text) + tail, Eof, {}, env) ==
            Done(Filled(env.defs[n], args, args, env)).Then(Subst(tail, Eof, {}, env))
  {
    hide Subst, Proper, Gives;
    forall i | 0 <= i < |args| ensures Subst(args[i], Eof, {}, env) == Done(args[i]) {
      assert args[i] in args;
      NoNamesStay(args[i], Eof, {}, env);
    }
    CallMeans(n, text, args, args, tail, Eof, {}, env);
    NoNamesStay(Filled(env.defs[n], args, args, env), Enclosed, {} + {n}, env);
  }

  // ---- calls that are errors ---------------------------------------------------------------

  /** Too many or too few arguments. */
  ghost predicate Miscounted(text: seq<seq<Tok>>, arity: nat, va: bool, gnu: bool) {
    if va then |text| < arity && !(gnu && |text| == arity - 1)
    else |text| != arity && !(|text| == arity + 1 && text[|text| - 1] == [])
  }

  lemma {:induction false} TakesNone(text: seq<seq<Tok>>, arity: nat, va: bool, gnu: bool, tail: seq<Tok>)
    requires Proper(text, arity, va) && Miscounted(text, arity, va, gnu)
    ensures TakeArgs(WithCommas(text) + [RParen] + tail, arity, va, gnu) == WrongCount
    decreases |text|
  {
    hide TakeArg;
    var a := text[0];
    Split(text, tail);
    if arity == 0 {
      assert Balanced(text[0], 0, va && 0 == arity - 1);
      assert a != [] ==> a[0] != RParen;
    } else if |text| == 1 {
      assert Balanced(text[0], 0, va && 0 == arity - 1);
      TakesOne(a, 0, va && arity == 1, RParen, tail);
    } else {
      ProperTail(text, arity, va);
      assert Balanced(text[0], 0, va && 0 == arity - 1);
      TakesOne(a, 0, false, Comma, WithCommas(text[1..]) + [RParen] + tail);
      TakesNone(text[1..], arity - 1, va, gnu, tail);
    }
  }

  lemma CallMiscounted(n: nat, text: seq<seq<Tok>>, tail: seq<Tok>, end: End, nested: set<nat>, env: Env)
    requires n in env.defs && n !in nested && env.defs[n].Fun?
    requires Proper(text, env.defs[n].arity, env.defs[n].va) && Miscounted(text, env.defs[n].arity, env.defs[n].va, env.gnu)
    ensures Subst(Call(n, text) + tail, end, nested, env) == Error
  {
    var s := Call(n, text) + tail;
    var stream := [LParen] + (WithCommas(text) + [RParen] + tail);
    assert s == [Id(n)] + stream && s[1..] == stream && stream[1..] == WithCommas(text) + [RParen] + tail;
    TakesNone(text, env.defs[n].arity, env.defs[n].va, env.gnu, tail);
    hide TakeArgs, Fill;
  }

  /** The parenthesis opened before ts is not closed in it. */
  predicate NeverCloses(ts: seq<Tok>, level: nat) {
    ts == [] ||
    if ts[0] == LParen then NeverCloses(ts[1..], level + 1)
    else if ts[0] == RParen then level > 0 && NeverCloses(ts[1..], level - 1)
    else NeverCloses(ts[1..], level)
  }

  /** Otherwise it is closed behind a balanced part. */
  lemma {:induction false} ClosesSomewhere(ts: seq<Tok>, level: nat) returns (k: nat)
    requires !NeverCloses(ts, level)
    ensures k < |ts| && ts[k] == RParen && Balanced(ts[..k], level, true)
  {
    if ts[0] == RParen && level == 0 {
      k := 0;
    } else {
      var next := if ts[0] == LParen then level + 1 else if ts[0] == RParen then level - 1 else level;
      k := ClosesSomewhere(ts[1..], next);
      assert ts[..k + 1][1..] == ts[1..][..k] && ts[..k + 1][0] == ts[0];
      k := k + 1;
    }
  }

  lemma {:induction false} TakesOpen(ts: seq<Tok>, level: nat, va: bool)
    requires NeverCloses(ts, level)
    ensures var r := TakeArg(ts, level, va); r.Arg? ==> r.closer == Comma && NeverCloses(r.rest, 0)
  {
    if ts != [] && !(level == 0 && ts[0] == Comma && !va) {
      var next := if ts[0] == LParen then level + 1 else if ts[0] == RParen then level - 1 else level;
      TakesOpen(ts[1..], next, va);
    }
  }

  lemma {:induction false} TakesUnclosed(ts: seq<Tok>, arity: nat, va: bool, gnu: bool)
    requires NeverCloses(ts, 0)
    ensures !TakeArgs(ts, arity, va, gnu).Args?
    decreases arity
  {
    hide TakeArg;
    if ts != [] && arity > 0 {
      TakesOpen(ts, 0, va && arity == 1);
      var r := TakeArg(ts, 0, va && arity == 1);
      if r.Arg? {
        TakesUnclosed(r.rest, arity - 1, va, gnu);
      }
    }
  }

  /** A call that is never closed is an error at the end of the text. */
  lemma CallUnclosed(n: nat, ts: seq<Tok>, nested: set<nat>, env: Env)
    requires n in env.defs && n !in nested && env.defs[n].Fun? && NeverCloses(ts, 0)
    ensures Subst([Id(n), LParen] + ts, Eof, nested, env) == Error
  {
    var s := [Id(n), LParen] + ts;
    assert s[1..] == [LParen] + ts && s[1..][1..] == ts;
    TakesUnclosed(ts, env.defs[n].arity, env.defs[n].va, env.gnu);
    hide TakeArgs, Fill;
  }

  /** At the end of a replacement list neither a name that may be called nor a call that is
      still open is decided. */
  lemma ListEndLeaves(n: nat, ts: seq<Tok>, nested: set<nat>, env: Env)
    requires n in env.defs && n !in nested && env.defs[n].Fun? && NeverCloses(ts, 0)
    ensures Subst([Id(n)], Enclosed, nested, env) == Leaves
    ensures Subst([Id(n), LParen], Enclosed, nested, env) == Leaves
    ensures Subst([Id(n), LParen] + ts, Enclosed, nested, env) in {Leaves, Error}
  {
    assert [Id(n)][1..] == [] && [Id(n), LParen][1..] == [LParen] && [LParen][1..] == [];
    var s := [Id(n), LParen] + ts;
    assert s[1..] == [LParen] + ts && s[1..][1..] == ts;
    TakesUnclosed(ts, env.defs[n].arity, env.defs[n].va, env.gnu);
    NothingToTake(env.defs[n].arity, env.defs[n].va, env.gnu);
    hide TakeArgs, Fill;
  }

  lemma NothingToTake(arity: nat, va: bool, gnu: bool)
    ensures TakeArgs([], arity, va, gnu) == Unclosed
  {}

  /** At the end of a text or of an argument the name stands for itself. */
  lemma TextEndKeeps(n: nat, nested: set<nat>, env: Env)
    requires n in env.defs && n !in nested && env.defs[n].Fun?
    ensures Subst([Id(n)], Eof, nested, env) == Done([Id(n)])
  {
    assert [Id(n)][1..] == [];
    assert Subst([], Eof, nested, env) == Done([]);
  }
}
