/** Macro expansion: rescanning stopped by the list of enclosing macros and by
    painting, its termination for every set of definitions, and its agreement
    with the hide-set reading of section 6.10.3.4 of ISO/IEC 9899:2011. */
module MacroExpand {

  /** Painted(n) is identifier n carrying the "no further substitution" bit. */
  datatype Tok = Id(n: nat) | Painted(n: nat) | LParen | RParen | Comma | Plain(code: nat)

  /** A piece of a function-like replacement list: a token, a parameter to be
      replaced by its expanded argument, one next to ##, one after #, or the GNU form
      of a comma, ## and the variable arguments. */
  datatype Piece = Lit(t: Tok) | Param(i: nat) | Raw(i: nat) | Str(i: nat) | CommaArgs(i: nat)

  /** `join` is MACRO_JOIN: the list contains ##. `va`: the last parameter takes all
      remaining arguments. */
  datatype Macro = Obj(body: seq<Tok>, join: bool) | Fun(arity: nat, va: bool, pieces: seq<Piece>, join: bool)

  /** The definitions, the two token-building operators as given functions, and
      whether GNU extensions are on. */
  datatype Env = Env(defs: map<nat, Macro>, paste: seq<Tok> -> seq<Tok>, stringize: seq<Tok> -> Tok, placeholder: Tok, gnu: bool)

  /** What follows the last token of a stream: the end of a file or argument, or
      the end of a replacement list, behind which the enclosing stream continues. */
  datatype End = Eof | Enclosed

  /** Leaves: a call reaches past the end of the replacement list it begins in. */
  datatype Outcome = Done(out: seq<Tok>) | Leaves | Error {
    function Then(tail: Outcome): Outcome {
      match this
      case Done(a) => (match tail case Done(b) => Done(a + b) case _ => tail)
      case _ => this
    }
  }

  // ---- collecting arguments ----------------------------------------------

  datatype OneArg = Arg(arg: seq<Tok>, closer: Tok, rest: seq<Tok>) | ArgOpen

  /** The tokens up to the comma or parenthesis that ends the argument; commas belong
      to the variable arguments. */
  function TakeArg(ts: seq<Tok>, level: nat, va: bool): (r: OneArg)
    ensures r.Arg? ==> |r.arg| + 1 + |r.rest| == |ts| && (r.closer == Comma || r.closer == RParen)
  {
    if ts == [] then ArgOpen
    else if level == 0 && (ts[0] == RParen || (ts[0] == Comma && !va)) then Arg([], ts[0], ts[1..])
    else
      var next := if ts[0] == LParen then level + 1 else if ts[0] == RParen then level - 1 else level;
      match TakeArg(ts[1..], next, va)
      case ArgOpen => ArgOpen
      case Arg(a, c, rest) => Arg([ts[0]] + a, c, rest)
  }

  datatype Arguments = Args(args: seq<seq<Tok>>, rest: seq<Tok>) | Unclosed | WrongCount

  function Total(args: seq<seq<Tok>>): nat {
    if args == [] then 0 else |args[0]| + Total(args[1..])
  }

  /** One argument in front of others. */
  function Before(a: seq<Tok>, more: seq<seq<Tok>>): (r: seq<seq<Tok>>)
    ensures |r| == 1 + |more| && Total(r) == |a| + Total(more)
  {
    assert ([a] + more)[1..] == more;
    [a] + more
  }

  /** The arguments after the opening parenthesis. A comma after the last
      parameter is tolerated when the closing parenthesis follows at once; the
      variable arguments may be left out with their comma as a GNU extension. */
  function TakeArgs(ts: seq<Tok>, params: nat, va: bool, gnu: bool): (r: Arguments)
    ensures r.Args? ==> |r.args| == params && Total(r.args) + |r.rest| < |ts|
    decreases params
  {
    if ts == [] then Unclosed
    else if params == 0 then
      if ts[0] == RParen then Args([], ts[1..]) else WrongCount
    else
      match TakeArg(ts, 0, va && params == 1)
      case ArgOpen => Unclosed
      case Arg(a, RParen, rest) =>
        if params == 1 then Args(Before(a, []), rest)
        else if params == 2 && va && gnu then Args(Before(a, Before([], [])), rest)
        else WrongCount
      case Arg(a, _, rest) =>
        match TakeArgs(rest, params - 1, va, gnu)
        case Args(more, rest') => Args(Before(a, more), rest')
        case other => other
  }

  // ---- the expander --------------------------------------------------------

  ghost function Free(env: Env, nested: set<nat>): nat { |env.defs.Keys - nested| }

  lemma FreeShrinks(env: Env, nested: set<nat>, n: nat)
    requires n in env.defs && n !in nested
    ensures Free(env, nested + {n}) < Free(env, nested)
  {
    assert env.defs.Keys - nested == (env.defs.Keys - (nested + {n})) + {n};
  }

  function Joined(env: Env, join: bool, ts: seq<Tok>): seq<Tok> { if join then env.paste(ts) else ts }

  /** macro_subst. The measure is lexicographic: definitions not yet entered,
      then tokens left; no assumption on the definitions is needed, and the
      operators # and ## may produce any tokens at all. */
  function Subst(ts: seq<Tok>, end: End, nested: set<nat>, env: Env): (r: Outcome)
    ensures r.Done? ==> forall t :: t in r.out && t.Id? && t.n in env.defs ==> env.defs[t.n].Fun?
    decreases Free(env, nested), |ts|, 0
  {
    if ts == [] then Done([])
    else
      var t := ts[0];
      if !t.Id? || t.n !in env.defs then Done([t]).Then(Subst(ts[1..], end, nested, env))
      else if t.n in nested then Done([Painted(t.n)]).Then(Subst(ts[1..], end, nested, env))
      else
        var c := SubstTok(t.n, ts[1..], end, nested, env);
        c.expansion.Then(Subst(c.after, end, nested, env))
  }

  datatype Called = Called(expansion: Outcome, after: seq<Tok>)

  /** macro_subst_tok: macro n, with `stream` behind it. */
  function SubstTok(n: nat, stream: seq<Tok>, end: End, nested: set<nat>, env: Env): (c: Called)
    requires n in env.defs && n !in nested
    ensures |c.after| <= |stream|
    ensures c.expansion.Done? ==> forall t :: t in c.expansion.out && t.Id? && t.n in env.defs ==> env.defs[t.n].Fun?
    decreases Free(env, nested), |stream|, 1
  {
    FreeShrinks(env, nested, n);
    match env.defs[n]
    case Obj(body, join) => Called(Subst(Joined(env, join, body), Enclosed, nested + {n}, env), stream)
    case Fun(arity, va, pieces, join) =>
      if stream == [] && end == Enclosed then Called(Leaves, stream)
      else if stream == [] || stream[0] != LParen then Called(Done([Id(n)]), stream)
      else
        match TakeArgs(stream[1..], arity, va, env.gnu)
        case Unclosed => Called(if end == Enclosed then Leaves else Error, stream)
        case WrongCount => Called(Error, stream)
        case Args(args, after) =>
          match Fill(pieces, args, nested, env, |stream| - 1)
          case Done(filled) => Called(Subst(Joined(env, join, filled), Enclosed, nested + {n}, env), after)
          case failed => Called(failed, after)
  }

  /** macro_arg_subst: `bound` limits the length of every argument. */
  function Fill(pieces: seq<Piece>, args: seq<seq<Tok>>, nested: set<nat>, env: Env, bound: nat): (r: Outcome)
    requires Total(args) < bound
    decreases Free(env, nested), bound, |pieces|, 1
  {
    if pieces == [] then Done([])
    else FillOne(pieces[0], args, nested, env, bound).Then(Fill(pieces[1..], args, nested, env, bound))
  }

  function FillOne(piece: Piece, args: seq<seq<Tok>>, nested: set<nat>, env: Env, bound: nat): (r: Outcome)
    requires Total(args) < bound
    decreases Free(env, nested), bound, 0, 0
  {
    match piece
    case Lit(t) => Done([t])
    case Param(i) =>
      if i >= |args| then Done([])
      else
        TotalCovers(args, i);
        Subst(args[i], Eof, nested, env)
    case Raw(i) => Done(if i >= |args| then [] else if args[i] == [] then [env.placeholder] else args[i])
    case Str(i) => Done(if i >= |args| then [] else [env.stringize(args[i])])
    case CommaArgs(i) =>
      if i >= |args| || args[i] == [] then Done([])
      else
        TotalCovers(args, i);
        Done([Comma]).Then(Subst(args[i], Eof, nested, env))
  }

  lemma {:induction false} TotalCovers(args: seq<seq<Tok>>, i: nat)
    requires i < |args|
    ensures |args[i]| <= Total(args)
  {
    if i > 0 {
      TotalCovers(args[1..], i - 1);
    }
  }

  // ---- the loop of macro_subst ---------------------------------------------

  function Names(list: seq<nat>): set<nat> { set n | n in list }

  lemma ThenAssoc(a: Outcome, b: Outcome, c: Outcome)
    ensures a.Then(b).Then(c) == a.Then(b.Then(c))
  {
    if a.Done? && b.Done? && c.Done? {
      assert a.out + b.out + c.out == a.out + (b.out + c.out);
    }
  }

  lemma SubstUnfolds(ts: seq<Tok>, end: End, nested: set<nat>, env: Env, out: seq<Tok>)
    requires ts != []
    ensures var t := ts[0];
            Done(out).Then(Subst(ts, end, nested, env)) ==
            if !t.Id? || t.n !in env.defs then Done(out + [t]).Then(Subst(ts[1..], end, nested, env))
            else if t.n in nested then Done(out + [Painted(t.n)]).Then(Subst(ts[1..], end, nested, env))
            else
              var c := SubstTok(t.n, ts[1..], end, nested, env);
              Done(out).Then(c.expansion).Then(Subst(c.after, end, nested, env))
  {
    hide SubstTok;
    var t := ts[0];
    if !t.Id? || t.n !in env.defs {
      ThenAssoc(Done(out), Done([t]), Subst(ts[1..], end, nested, env));
    } else if t.n in nested {
      ThenAssoc(Done(out), Done([Painted(t.n)]), Subst(ts[1..], end, nested, env));
    } else {
      var c := SubstTok(t.n, ts[1..], end, nested, env);
      ThenAssoc(Done(out), c.expansion, Subst(c.after, end, nested, env));
    }
  }

  /** macro_subst as written: tokens are appended to `tokStr`, the list of
      enclosing macros is a stack, and only replacement lists recurse. */
  method MacroSubst(tokStr: seq<Tok>, macroStr: seq<Tok>, end: End, nestedList: seq<nat>, env: Env) returns (r: Outcome)
    ensures r == Done(tokStr).Then(Subst(macroStr, end, Names(nestedList), env))
    decreases Free(env, Names(nestedList)), |macroStr|, 0
  {
    hide Subst, SubstTok;
    ghost var nested := Names(nestedList);
    var out, rest := tokStr, macroStr;
    while rest != []
      invariant |rest| <= |macroStr|
      invariant Done(tokStr).Then(Subst(macroStr, end, nested, env)) == Done(out).Then(Subst(rest, end, nested, env))
      decreases |rest|
    {
      SubstUnfolds(rest, end, nested, env, out);
      var t := rest[0];
      rest := rest[1..];
      if !t.Id? || t.n !in env.defs {
        out := out + [t];
      } else if t.n in nestedList {
        out := out + [Painted(t.n)];
      } else {
        var s;
        s, rest := MacroSubstTok(out, t.n, rest, end, nestedList, env);
        if !s.Done? {
          return s;
        }
        out := s.out;
      }
    }
    SubstNone(end, nested, env);
    r := Done(out);
  }

  lemma SubstNone(end: End, nested: set<nat>, env: Env)
    ensures Subst([], end, nested, env) == Done([])
  {}

  /** macro_subst_tok: the macro is pushed on the list while its replacement is rescanned. */
  method MacroSubstTok(tokStr: seq<Tok>, n: nat, stream: seq<Tok>, end: End, nestedList: seq<nat>, env: Env)
    returns (r: Outcome, after: seq<Tok>)
    requires n in env.defs && n !in nestedList
    ensures var c := SubstTok(n, stream, end, Names(nestedList), env);
            r == Done(tokStr).Then(c.expansion) && after == c.after
    decreases Free(env, Names(nestedList)), |stream|, 1
  {
    hide Subst, Fill;
    FreeShrinks(env, Names(nestedList), n);
    assert Names([n] + nestedList) == Names(nestedList) + {n};
    after := stream;
    match env.defs[n] {
      case Obj(body, join) =>
        r := MacroSubst(tokStr, Joined(env, join, body), Enclosed, [n] + nestedList, env);
      case Fun(arity, va, pieces, join) =>
        if stream == [] && end == Enclosed {
          return Leaves, stream;
        }
        if stream == [] || stream[0] != LParen {
          return Done(tokStr + [Id(n)]), stream;
        }
        match TakeArgs(stream[1..], arity, va, env.gnu) {
          case Unclosed => r := if end == Enclosed then Leaves else Error;
          case WrongCount => r := Error;
          case Args(args, rest) =>
            after := rest;
            r := MacroArgSubst(nestedList, pieces, args, env, |stream| - 1);
            if r.Done? {
              r := MacroSubst(tokStr, Joined(env, join, r.out), Enclosed, [n] + nestedList, env);
            }
        }
    }
  }

  /** macro_arg_subst: an argument is expanded where the list first uses it, and the
      expansion kept. */
  method MacroArgSubst(nestedList: seq<nat>, pieces: seq<Piece>, args: seq<seq<Tok>>, env: Env, ghost bound: nat)
    returns (r: Outcome)
    requires Total(args) < bound
    ensures r == Fill(pieces, args, Names(nestedList), env, bound)
    decreases Free(env, Names(nestedList)), bound, |pieces|
  {
    hide Subst, Fill;
    ghost var nested := Names(nestedList);
    var str: seq<Tok> := [];
    var kept: map<nat, seq<Tok>> := map[];
    var rest := pieces;
    while rest != []
      invariant |rest| <= |pieces| && Kept(kept, args, nested, env)
      invariant Fill(pieces, args, nested, env, bound) == Done(str).Then(Fill(rest, args, nested, env, bound))
      decreases |rest|
    {
      FillUnfolds(rest, args, nested, env, bound, str);
      str := str + Copied(rest[0], args, env);
      if Expands(rest[0], args) {
        var i := rest[0].i;
        if i !in kept {
          TotalCovers(args, i);
          var s := MacroSubst([], args[i], Eof, nestedList, env);
          assert Done([]).Then(Subst(args[i], Eof, nested, env)) == Subst(args[i], Eof, nested, env);
          if !s.Done? {
            return s;
          }
          kept := kept[i := s.out];
        }
        str := str + kept[i];
      }
      rest := rest[1..];
    }
    FillNone(args, nested, env, bound);
    r := Done(str);
  }

  ghost predicate Kept(kept: map<nat, seq<Tok>>, args: seq<seq<Tok>>, nested: set<nat>, env: Env) {
    forall i :: i in kept ==> i < |args| && Subst(args[i], Eof, nested, env) == Done(kept[i])
  }

  /** The piece is replaced by an expanded argument. */
  predicate Expands(piece: Piece, args: seq<seq<Tok>>)
    ensures Expands(piece, args) ==> (piece.Param? || piece.CommaArgs?) && piece.i < |args|
  {
    match piece
    case Param(i) => i < |args|
    case CommaArgs(i) => i < |args| && args[i] != []
    case _ => false
  }

  /** What a piece contributes before any expansion. */
  function Copied(piece: Piece, args: seq<seq<Tok>>, env: Env): seq<Tok> {
    match piece
    case Lit(t) => [t]
    case Param(i) => []
    case Raw(i) => if i >= |args| then [] else if args[i] == [] then [env.placeholder] else args[i]
    case Str(i) => if i >= |args| then [] else [env.stringize(args[i])]
    case CommaArgs(i) => if i >= |args| || args[i] == [] then [] else [Comma]
  }

  lemma FillNone(args: seq<seq<Tok>>, nested: set<nat>, env: Env, bound: nat)
    requires Total(args) < bound
    ensures Fill([], args, nested, env, bound) == Done([])
  {}

  lemma FillUnfolds(pieces: seq<Piece>, args: seq<seq<Tok>>, nested: set<nat>, env: Env, bound: nat, str: seq<Tok>)
    requires Total(args) < bound && pieces != []
    ensures var p, tail := pieces[0], Fill(pieces[1..], args, nested, env, bound);
            Done(str).Then(Fill(pieces, args, nested, env, bound)) ==
            if Expands(p, args)
            then Done(str + Copied(p, args, env)).Then(Subst(args[p.i], Eof, nested, env)).Then(tail)
            else Done(str + Copied(p, args, env)).Then(tail)
  {
    hide Subst, Total;
    var p := pieces[0];
    ThenAssoc(Done(str), FillOne(p, args, nested, env, bound), Fill(pieces[1..], args, nested, env, bound));
    if Expands(p, args) {
      ThenAssoc(Done(str), Done(Copied(p, args, env)), Subst(args[p.i], Eof, nested, env));
      if p.Param? {
        assert str + [] == str && Done([]).Then(Subst(args[p.i], Eof, nested, env)) == Subst(args[p.i], Eof, nested, env);
      }
    }
  }

  // ---- the hide-set reading --------------------------------------------------

  /** A token and the macros it came from (its hide set). */
  datatype Hidden = Hidden(t: Tok, hs: set<nat>)

  ghost predicate ObjectLike(env: Env) { forall n :: n in env.defs ==> env.defs[n].Obj? }

  /** What an object-like macro stands for, its ## carried out. */
  function List(n: nat, env: Env): seq<Tok>
    requires n in env.defs && env.defs[n].Obj?
  {
    var m := env.defs[n];
    if m.join then env.paste(m.body) else m.body
  }

  predicate Expandable(h: Hidden, env: Env) { h.t.Id? && h.t.n in env.defs && h.t.n !in h.hs }

  function Leftmost(hs: seq<Hidden>, env: Env): (i: nat)
    ensures i <= |hs| && (i < |hs| ==> Expandable(hs[i], env))
    ensures forall j :: 0 <= j < i ==> !Expandable(hs[j], env)
  {
    if hs == [] || Expandable(hs[0], env) then 0 else 1 + Leftmost(hs[1..], env)
  }

  ghost predicate Normal(hs: seq<Hidden>, env: Env) {
    forall j :: 0 <= j < |hs| ==> !Expandable(hs[j], env)
  }

  function Hide(ts: seq<Tok>, hs: set<nat>): (r: seq<Hidden>)
    ensures |r| == |ts| && forall j :: 0 <= j < |ts| ==> r[j] == Hidden(ts[j], hs)
  {
    seq(|ts|, j requires 0 <= j < |ts| => Hidden(ts[j], hs))
  }

  /** One replacement: the leftmost expandable token gives way to its list, whose
      tokens remember where they came from. */
  ghost function Step(hs: seq<Hidden>, env: Env): seq<Hidden>
    requires ObjectLike(env)
  {
    var i := Leftmost(hs, env);
    if i == |hs| then hs
    else hs[..i] + Hide(List(hs[i].t.n, env), hs[i].hs + {hs[i].t.n}) + hs[i + 1..]
  }

  ghost function Steps(hs: seq<Hidden>, k: nat, env: Env): seq<Hidden>
    requires ObjectLike(env)
    decreases k
  {
    if k == 0 then hs else Steps(Step(hs, env), k - 1, env)
  }

  /** A hidden macro name appears painted. */
  function Shown(h: Hidden, env: Env): Tok {
    if h.t.Id? && h.t.n in env.defs && h.t.n in h.hs then Painted(h.t.n) else h.t
  }

  function Show(hs: seq<Hidden>, env: Env): (r: seq<Tok>)
    ensures |r| == |hs| && forall j :: 0 <= j < |hs| ==> r[j] == Shown(hs[j], env)
  {
    seq(|hs|, j requires 0 <= j < |hs| => Shown(hs[j], env))
  }

  lemma {:induction false} StepsAdd(hs: seq<Hidden>, j: nat, k: nat, env: Env)
    requires ObjectLike(env)
    ensures Steps(hs, j + k, env) == Steps(Steps(hs, j, env), k, env)
    decreases j
  {
    if j > 0 {
      StepsAdd(Step(hs, env), j - 1, k, env);
    }
  }

  lemma {:induction false} StepsStay(hs: seq<Hidden>, k: nat, env: Env)
    requires ObjectLike(env) && Normal(hs, env)
    ensures Steps(hs, k, env) == hs
    decreases k
  {
    if k > 0 {
      StepsStay(hs, k - 1, env);
    }
  }

  /** The leftmost token that can be replaced, behind a part that is finished. */
  lemma StepAt(pre: seq<Hidden>, h: Hidden, post: seq<Hidden>, env: Env)
    requires ObjectLike(env) && Normal(pre, env) && Expandable(h, env)
    ensures Step(pre + [h] + post, env) == pre + Hide(List(h.t.n, env), h.hs + {h.t.n}) + post
  {
    var all := pre + [h] + post;
    var i := Leftmost(all, env);
    assert all[|pre|] == h;
    forall j | 0 <= j < |pre| ensures !Expandable(all[j], env) {
      assert all[j] == pre[j];
    }
    assert i == |pre|;
    assert all[..i] == pre && all[i + 1..] == post;
  }

  /** The expansion of a part of a text, in place, behind a finished part. */
  lemma {:induction false} SubstInPlace(ts: seq<Tok>, end: End, nested: set<nat>, env: Env, pre: seq<Hidden>, post: seq<Hidden>)
    returns (k: nat, mid: seq<Hidden>)
    requires ObjectLike(env) && Normal(pre, env)
    ensures Steps(pre + Hide(ts, nested) + post, k, env) == pre + mid + post
    ensures Normal(mid, env) && Subst(ts, end, nested, env) == Done(Show(mid, env))
    decreases Free(env, nested), |ts|
  {
    hide Steps, Step, Normal, Show;
    if ts == [] {
      k, mid := 0, [];
      StepsNone(Hide(ts, nested), env, pre, post);
      return;
    }
    var h, rest := Hidden(ts[0], nested), ts[1..];
    assert Hide(ts, nested) == [h] + Hide(rest, nested);
    if Expandable(h, env) {
      var n := ts[0].n;
      FreeShrinks(env, nested, n);
      var after := Hide(rest, nested) + post;
      var k1, mid1 := SubstInPlace(List(n, env), Enclosed, nested + {n}, env, pre, after);
      ShowAppend(pre, mid1, env);
      var k2, mid2 := SubstInPlace(rest, end, nested, env, pre + mid1, post);
      k, mid := 1 + (k1 + k2), mid1 + mid2;
      Glue(pre, h, after, mid1, mid2, k1, k2, Hide(rest, nested), post, env);
      ShowAppend(mid1, mid2, env);
    } else {
      OneFinished(h, env);
      ShowAppend(pre, [h], env);
      var k2, mid2 := SubstInPlace(rest, end, nested, env, pre + [h], post);
      k, mid := k2, [h] + mid2;
      Regroup(pre, [h], Hide(rest, nested), post);
      Regroup(pre, [h], mid2, post);
      ShowAppend([h], mid2, env);
    }
  }

  lemma OneFinished(h: Hidden, env: Env)
    requires !Expandable(h, env)
    ensures Normal([h], env) && Show([h], env) == [Shown(h, env)]
  {}

  lemma StepsNone(none: seq<Hidden>, env: Env, pre: seq<Hidden>, post: seq<Hidden>)
    requires ObjectLike(env) && none == []
    ensures Steps(pre + none + post, 0, env) == pre + [] + post && Normal([], env) && Show([], env) == []
  {}

  lemma Regroup(a: seq<Hidden>, b: seq<Hidden>, c: seq<Hidden>, d: seq<Hidden>)
    ensures a + (b + c) + d == (a + b) + c + d
  {
    assert a + (b + c) == (a + b) + c;
  }

  lemma ShowAppend(a: seq<Hidden>, b: seq<Hidden>, env: Env)
    ensures Show(a + b, env) == Show(a, env) + Show(b, env)
    ensures Normal(a, env) && Normal(b, env) ==> Normal(a + b, env)
  {}

  lemma Glue(pre: seq<Hidden>, h: Hidden, after: seq<Hidden>, mid1: seq<Hidden>, mid2: seq<Hidden>, k1: nat, k2: nat,
             rest: seq<Hidden>, post: seq<Hidden>, env: Env)
    requires ObjectLike(env) && Normal(pre, env) && Expandable(h, env) && after == rest + post
    requires Steps(pre + Hide(List(h.t.n, env), h.hs + {h.t.n}) + after, k1, env) == pre + mid1 + after
    requires Steps(pre + mid1 + rest + post, k2, env) == pre + mid1 + mid2 + post
    ensures Steps(pre + ([h] + rest) + post, 1 + (k1 + k2), env) == pre + (mid1 + mid2) + post
  {
    hide Step, Hide, Normal;
    var s := Hide(List(h.t.n, env), h.hs + {h.t.n});
    assert pre + ([h] + rest) + post == pre + [h] + after;
    StepAt(pre, h, after, env);
    StepsAdd(pre + s + after, k1, k2, env);
    assert pre + mid1 + after == pre + mid1 + rest + post;
    assert pre + (mid1 + mid2) + post == pre + mid1 + mid2 + post;
  }

  /** For object-like macros, with ## or without, the expander computes the one normal
      form that leftmost hide-set replacement reaches. */
  lemma {:induction false} ExpansionIsHideSetNormalForm(ts: seq<Tok>, env: Env)
    requires ObjectLike(env)
    ensures exists k: nat ::
              var f := Steps(Hide(ts, {}), k, env);
              Normal(f, env) && Subst(ts, Eof, {}, env) == Done(Show(f, env))
    ensures forall j: nat :: Normal(Steps(Hide(ts, {}), j, env), env) ==>
              Subst(ts, Eof, {}, env) == Done(Show(Steps(Hide(ts, {}), j, env), env))
  {
    hide Step, Steps, Normal, Subst, Show;
    NoneExpandable(env);
    var start := Hide(ts, {});
    var k, mid := SubstInPlace(ts, Eof, {}, env, NOTHING, NOTHING);
    assert NOTHING + start + NOTHING == start && NOTHING + mid + NOTHING == mid;
    assert Normal(Steps(start, k, env), env);
    forall j: nat | Normal(Steps(start, j, env), env)
      ensures Steps(start, j, env) == mid
    {
      NormalFormUnique(start, j, k, env);
    }
  }

  lemma NoneExpandable(env: Env)
    ensures Normal(NOTHING, env)
  {}

  const NOTHING: seq<Hidden> := []

  lemma NormalFormUnique(start: seq<Hidden>, j: nat, k: nat, env: Env)
    requires ObjectLike(env) && Normal(Steps(start, j, env), env) && Normal(Steps(start, k, env), env)
    ensures Steps(start, j, env) == Steps(start, k, env)
  {
    hide Step, Normal, Steps;
    var a, b := if j < k then j else k, if j < k then k else j;
    StepsAdd(start, a, b - a, env);
    StepsStay(Steps(start, a, env), b - a, env);
  }

  // ---- when expanding changes nothing -------------------------------------------

  /** With this behind its name the macro is expanded: always, or for a call. */
  predicate Calls(m: Macro, stream: seq<Tok>) { m.Obj? || (stream != [] && stream[0] == LParen) }

  /** The token at i is expanded: a macro name that is not painted, and a call of it
      if it is function-like. */
  predicate Active(ts: seq<Tok>, i: nat, env: Env)
    requires i < |ts|
  {
    ts[i].Id? && ts[i].n in env.defs && Calls(env.defs[ts[i].n], ts[i + 1..])
  }

  ghost predicate Quiet(ts: seq<Tok>, env: Env) { forall i :: 0 <= i < |ts| ==> !Active(ts, i, env) }

  lemma QuietTail(ts: seq<Tok>, env: Env)
    requires ts != []
    ensures Quiet(ts, env) <==> !Active(ts, 0, env) && Quiet(ts[1..], env)
  {
    var r := ts[1..];
    forall i | 0 <= i < |r| ensures Active(r, i, env) <==> Active(ts, i + 1, env) {
      assert r[i + 1..] == ts[i + 2..];
    }
    if !Active(ts, 0, env) && Quiet(r, env) {
      forall i | 0 <= i < |ts| ensures !Active(ts, i, env) {
        if i > 0 {
          assert !Active(r, i - 1, env);
        }
      }
    }
  }

  /** While a macro is being expanded its own name appears painted only. */
  lemma {:induction false} NameIsPainted(ts: seq<Tok>, end: End, nested: set<nat>, env: Env, n: nat)
    requires n in nested && n in env.defs
    ensures var r := Subst(ts, end, nested, env); r.Done? ==> Id(n) !in r.out
    decreases Free(env, nested), |ts|, 0
  {
    hide SubstTok;
    if ts != [] {
      var t := ts[0];
      if !t.Id? || t.n !in env.defs || t.n in nested {
        NameIsPainted(ts[1..], end, nested, env, n);
      } else {
        NameIsPaintedIn(t.n, ts[1..], end, nested, env, n);
        NameIsPainted(SubstTok(t.n, ts[1..], end, nested, env).after, end, nested, env, n);
      }
    }
  }

  /** In what macro m leaves: no enclosing macro's name, and not its own after a call. */
  lemma {:induction false} NameIsPaintedIn(m: nat, stream: seq<Tok>, end: End, nested: set<nat>, env: Env, n: nat)
    requires m in env.defs && m !in nested && n in env.defs
    requires n in nested || (n == m && Calls(env.defs[m], stream))
    ensures var c := SubstTok(m, stream, end, nested, env);
            c.expansion.Done? ==> Id(n) !in c.expansion.out
    decreases Free(env, nested), |stream|, 1
  {
    hide Subst, Fill, TakeArgs;
    FreeShrinks(env, nested, m);
    match env.defs[m]
    case Obj(body, join) =>
      NameIsPainted(Joined(env, join, body), Enclosed, nested + {m}, env, n);
    case Fun(arity, va, pieces, join) =>
      if stream != [] && stream[0] == LParen {
        match TakeArgs(stream[1..], arity, va, env.gnu)
        case Unclosed =>
        case WrongCount =>
        case Args(args, after) =>
          match Fill(pieces, args, nested, env, |stream| - 1)
          case Done(filled) => NameIsPainted(Joined(env, join, filled), Enclosed, nested + {m}, env, n);
          case failed =>
      }
  }

  ghost predicate Suffix(r: seq<Tok>, ts: seq<Tok>) { |r| <= |ts| && r == ts[|ts| - |r|..] }

  lemma SuffixStep(r: seq<Tok>, ts: seq<Tok>)
    requires ts != [] && Suffix(r, ts[1..])
    ensures Suffix(r, ts)
  {}

  lemma {:induction false} TakeArgSuffix(ts: seq<Tok>, level: nat, va: bool)
    ensures var r := TakeArg(ts, level, va); r.Arg? ==> Suffix(r.rest, ts)
  {
    if ts != [] && !(level == 0 && (ts[0] == RParen || (ts[0] == Comma && !va))) {
      TakeArgSuffix(ts[1..], if ts[0] == LParen then level + 1 else if ts[0] == RParen then level - 1 else level, va);
    }
  }

  lemma SuffixTrans(a: seq<Tok>, b: seq<Tok>, c: seq<Tok>)
    requires Suffix(a, b) && Suffix(b, c)
    ensures Suffix(a, c)
  {}

  lemma {:induction false} TakeArgsSuffix(ts: seq<Tok>, params: nat, va: bool, gnu: bool)
    ensures var r := TakeArgs(ts, params, va, gnu); r.Args? ==> Suffix(r.rest, ts)
  {
    hide Suffix, TakeArg;
    if ts != [] {
      SuffixSelf(ts[1..]);
      SuffixStep(ts[1..], ts);
      if params > 0 {
        TakeArgSuffix(ts, 0, va && params == 1);
        match TakeArg(ts, 0, va && params == 1)
        case ArgOpen =>
        case Arg(a, c, rest) =>
          TakeArgsSuffix(rest, params - 1, va, gnu);
          if TakeArgs(rest, params - 1, va, gnu).Args? {
            SuffixTrans(TakeArgs(rest, params - 1, va, gnu).rest, rest, ts);
          }
      }
    }
  }

  lemma SuffixSelf(ts: seq<Tok>)
    ensures Suffix(ts, ts)
  {}

  lemma AfterIsSuffix(m: nat, stream: seq<Tok>, end: End, nested: set<nat>, env: Env)
    requires m in env.defs && m !in nested
    ensures Suffix(SubstTok(m, stream, end, nested, env).after, stream)
  {
    hide Subst, Fill, Suffix, TakeArgs;
    SuffixSelf(stream);
    if env.defs[m].Fun? && stream != [] {
      var f := env.defs[m];
      TakeArgsSuffix(stream[1..], f.arity, f.va, env.gnu);
      var taken := TakeArgs(stream[1..], f.arity, f.va, env.gnu);
      if taken.Args? {
        SuffixStep(taken.rest, stream);
      }
    }
  }

  /** The part of the text from i on cannot expand to the part from j on, when j is
      behind i or the token at i is active: an expansion that would catch up
      would have to write the macro's own name at its own place. */
  lemma {:induction false} NeverCatchesUp(ts: seq<Tok>, i: nat, j: nat, env: Env)
    requires j <= i <= |ts| && Subst(ts[i..], Eof, {}, env) == Done(ts[j..])
    ensures i == j && Quiet(ts[i..], env)
    decreases |ts| - i
  {
    hide Subst, SubstTok, Quiet, Active;
    var s := ts[i..];
    if s == [] {
      SubstNone(Eof, {}, env);
      QuietNothing(env);
    } else {
      QuietTail(s, env);
      assert s[1..] == ts[i + 1..];
      if !Active(s, 0, env) {
        PassedOver(s, env);
        assert ts[j..][1..] == ts[j + 1..];
        NeverCatchesUp(ts, i + 1, j + 1, env);
      } else {
        var x, y, l := CallWrites(ts, i, j, env);
        NeverCatchesUp(ts, l, j + |x|, env);
        assert false;
      }
    }
  }

  /** An active token at i: its expansion x does not reach the token's own place. */
  lemma CallWrites(ts: seq<Tok>, i: nat, j: nat, env: Env) returns (x: seq<Tok>, y: seq<Tok>, l: nat)
    requires j <= i < |ts| && Active(ts[i..], 0, env) && Subst(ts[i..], Eof, {}, env) == Done(ts[j..])
    ensures j + |x| <= i < l <= |ts| && Subst(ts[l..], Eof, {}, env) == Done(y) && y == ts[j + |x|..]
  {
    hide Subst, SubstTok;
    var s := ts[i..];
    var n := s[0].n;
    assert s[1..] == ts[i + 1..];
    var c := SubstTok(n, s[1..], Eof, {}, env);
    CallUnfolds(s, env);
    x, y := c.expansion.out, Subst(c.after, Eof, {}, env).out;
    NameIsPaintedIn(n, s[1..], Eof, {}, env, n);
    AfterIsSuffix(n, s[1..], Eof, {}, env);
    l := |ts| - |c.after|;
    assert c.after == ts[l..];
    TwoParts(x, y, ts, j);
    if j + |x| > i {
      Holds(x, ts, i, j);
    }
  }

  lemma Holds(x: seq<Tok>, ts: seq<Tok>, i: nat, j: nat)
    requires j <= i < j + |x| <= |ts| && forall k :: 0 <= k < |x| ==> x[k] == ts[j + k]
    ensures ts[i] in x
  {
    assert x[i - j] in x;
  }

  lemma CallUnfolds(s: seq<Tok>, env: Env)
    requires s != [] && Active(s, 0, env)
    ensures var c := SubstTok(s[0].n, s[1..], Eof, {}, env);
            Subst(s, Eof, {}, env) == c.expansion.Then(Subst(c.after, Eof, {}, env))
  {
    hide SubstTok;
  }

  lemma TwoParts(x: seq<Tok>, y: seq<Tok>, ts: seq<Tok>, j: nat)
    requires j <= |ts| && x + y == ts[j..]
    ensures j + |x| <= |ts| && y == ts[j + |x|..] && forall k :: 0 <= k < |x| ==> x[k] == ts[j + k]
  {
    forall k | 0 <= k < |x| ensures x[k] == ts[j + k] {
      assert (x + y)[k] == ts[j..][k];
    }
    assert (x + y)[|x|..] == y && ts[j..][|x|..] == ts[j + |x|..];
  }

  lemma {:induction false} QuietStays(ts: seq<Tok>, env: Env)
    requires Quiet(ts, env)
    ensures Subst(ts, Eof, {}, env) == Done(ts)
  {
    hide SubstTok, Quiet, Subst;
    if ts == [] {
      SubstNone(Eof, {}, env);
    } else {
      QuietTail(ts, env);
      PassedOver(ts, env);
      QuietStays(ts[1..], env);
      assert [ts[0]] + ts[1..] == ts;
    }
  }

  /** For every text and every set of definitions: expanding leaves the text as it is
      exactly when no token of it is active. */
  lemma UnchangedIffQuiet(ts: seq<Tok>, env: Env)
    ensures Subst(ts, Eof, {}, env) == Done(ts) <==> Quiet(ts, env)
  {
    hide Subst, Quiet;
    assert ts[0..] == ts;
    if Subst(ts, Eof, {}, env) == Done(ts) {
      NeverCatchesUp(ts, 0, 0, env);
    }
    if Quiet(ts, env) {
      QuietStays(ts, env);
    }
  }

  /** Expanding a second time changes nothing exactly when the first pass left no
      function-like name, unpainted, before an opening parenthesis. */
  lemma SecondPassIff(ts: seq<Tok>, end: End, nested: set<nat>, env: Env)
    requires Subst(ts, end, nested, env).Done?
    ensures var r := Subst(ts, end, nested, env);
            Subst(r.out, Eof, {}, env) == r <==>
            forall i :: 0 <= i < |r.out| - 1 && r.out[i].Id? && r.out[i].n in env.defs ==> r.out[i + 1] != LParen
  {
    var out := Subst(ts, end, nested, env).out;
    UnchangedIffQuiet(out, env);
    hide Subst;
    forall i | 0 <= i < |out|
      ensures Active(out, i, env) <==>
              i < |out| - 1 && out[i].Id? && out[i].n in env.defs && out[i + 1] == LParen
    {
      assert out[i] in out;
      if i < |out| - 1 {
        assert out[i + 1..][0] == out[i + 1];
      }
    }
  }

  lemma QuietNothing(env: Env)
    ensures Quiet([], env)
  {}

  /** A token that is not active is written as it is. */
  lemma PassedOver(s: seq<Tok>, env: Env)
    requires s != [] && !Active(s, 0, env)
    ensures Subst(s, Eof, {}, env) == Done([s[0]]).Then(Subst(s[1..], Eof, {}, env))
  {
    hide Fill, TakeArgs;
  }

  /** For object-like macros every token left is no macro or is painted, so expanding
      again changes nothing. */
  lemma ExpansionIsIdempotent(ts: seq<Tok>, end: End, nested: set<nat>, env: Env)
    requires ObjectLike(env)
    ensures var r := Subst(ts, end, nested, env);
            r.Done? && Subst(r.out, Eof, {}, env) == r
  {
    hide Subst;
    NoneExpandable(env);
    var k, mid := SubstInPlace(ts, end, nested, env, NOTHING, NOTHING);
    SecondPassIff(ts, end, nested, env);
    NoMacroLeft(ts, end, nested, env);
  }

  lemma NoMacroLeft(ts: seq<Tok>, end: End, nested: set<nat>, env: Env)
    requires ObjectLike(env)
    ensures var r := Subst(ts, end, nested, env);
            r.Done? ==> forall i :: 0 <= i < |r.out| && r.out[i].Id? ==> r.out[i].n !in env.defs
  {
    hide Subst;
    var r := Subst(ts, end, nested, env);
    if r.Done? {
      assert forall i :: 0 <= i < |r.out| ==> r.out[i] in r.out;
    }
  }

  /** #define f(x) x x, and an empty object-like E; f is 0, E is 1. */
  function Doubling(paste: seq<Tok> -> seq<Tok>, stringize: seq<Tok> -> Tok): Env {
    Env(map[0 := Fun(1, false, [Param(0), Param(0)], false), 1 := Obj([], false)], paste, stringize, Plain(0), true)
  }

  const CALL: seq<Tok> := [Id(0), LParen, Plain(9), RParen]

  /** With function-like macros a second pass can change the text: f E ( 9 ) leaves
      the call f ( 9 ), which a second pass would carry out. */
  lemma FunctionLikeNotIdempotent(paste: seq<Tok> -> seq<Tok>, stringize: seq<Tok> -> Tok)
    ensures var env := Doubling(paste, stringize);
            var once := Subst([Id(0), Id(1)] + CALL[1..], Eof, {}, env);
            once == Done(CALL) && Subst(CALL, Eof, {}, env) != once
  {
    var env := Doubling(paste, stringize);
    EmptyThenCall(env);
    UnchangedIffQuiet(CALL, env);
    assert Active(CALL, 0, env);
    hide Subst;
    var text := [Id(0), Id(1)] + CALL[1..];
    SubstUnfolds(text, Eof, {}, env, []);
    assert text[1..] == [Id(1)] + CALL[1..];
    assert CALL == [Id(0)] + CALL[1..];
  }

  lemma EmptyThenCall(env: Env)
    requires 1 in env.defs && env.defs[1] == Obj([], false)
    ensures Subst([Id(1)] + CALL[1..], Eof, {}, env) == Done(CALL[1..])
  {
    QuietStays(CALL[1..], env);
    SubstNone(Enclosed, {} + {1}, env);
    hide Subst;
    var text := [Id(1)] + CALL[1..];
    SubstUnfolds(text, Eof, {}, env, []);
    assert text[1..] == CALL[1..];
  }
}
