/** What each conditional directive does to a run, told directive by directive: the
    group behaves as the branch chosen, read by itself with what is left of the
    stack, and everything else of it is passed over. */
module Directives {
  import opened Conditionals
  import opened IncludeGuard

  /** From c the run goes on as if, in place of n lines, `branch` alone had been read in
      state s, with room for `room` groups; c.stack with `popped` entries fewer is the
      stack behind. */
  ghost predicate Plays(lines: seq<Line>, c: Core, n: nat, popped: nat, branch: Block, s: State, room: nat, env: Env, limit: nat)
    requires popped <= |c.stack|
  {
    match CoreRun(Flat(branch), Core(0, [], s), env, room)
    case Ok(r) => r.stack == [] && Reaches(lines, c, Core(c.pos + n, c.stack[..|c.stack| - popped], r.s), env, limit)
    case Err => Fails(lines, c, env, limit)
  }

  /** A group of two branches with its #else. */
  function TwoWays(test: Line, a: Block, b: Block): seq<Line> { [test] + (Flat(a) + ([Else] + (Flat(b) + [Endif]))) }

  lemma ElseMeans(b: Block, s: State, env: Env)
    requires WellFormed(b)
    ensures MeaningTail(Otherwise(b), s, env) == Meaning(b, s, env) && LiveTail(Otherwise(b), s, env) == Live(b, s, env)
  {}

  lemma GroupPlays(lines: seq<Line>, c: Core, test: Line, a: Block, b: Block, env: Env, limit: nat)
    requires IsIf(test) && WellFormed(a) && WellFormed(b) && At(lines, c.pos, TwoWays(test, a, b)) && |c.stack| < limit
    ensures Plays(lines, c, |TwoWays(test, a, b)|, 0, if Holds(test, c.s, env) then a else b, Logged(test, c.s),
                  limit - |c.stack| - 1, env, limit)
  {
    hide CoreRun, At, Reaches, Fails, Holds, Logged;
    var i := Group(test, a, Otherwise(b));
    var branch := if Holds(test, c.s, env) then a else b;
    assert FlatItem(i) == TwoWays(test, a, b);
    ElseMeans(b, Logged(test, c.s), env);
    assert LiveItem(i, c.s, env) == 1 + Live(branch, Logged(test, c.s), env);
    assert MeaningItem(i, c.s, env) == Meaning(branch, Logged(test, c.s), env);
    hide LiveItem, Live, MeaningItem, Meaning, Flat, FlatItem;
    MachineRefinesMeaning(branch, Logged(test, c.s), env, limit - |c.stack| - 1);
    assert c.stack[..|c.stack|] == c.stack;
    if |c.stack| + LiveItem(i, c.s, env) <= limit {
      RunItem(lines, c, i, env, limit);
    } else {
      FailItem(lines, c, i, env, limit);
    }
  }

  /** The same for an #elif of a group in which no branch was taken yet. */
  lemma RestPlays(lines: seq<Line>, c: Core, test: Line, a: Block, b: Block, env: Env, limit: nat)
    requires IsElif(test) && WellFormed(a) && WellFormed(b) && At(lines, c.pos, TwoWays(test, a, b))
    requires 0 < |c.stack| <= limit && c.stack[|c.stack| - 1] == 0
    ensures Plays(lines, c, |TwoWays(test, a, b)|, 1, if Holds(test, c.s, env) then a else b, Logged(test, c.s),
                  limit - |c.stack|, env, limit)
  {
    hide CoreRun, At, Reaches, Fails, Holds, Logged;
    var t := OrIf(test, a, Otherwise(b));
    var branch := if Holds(test, c.s, env) then a else b;
    assert FlatTail(t) == TwoWays(test, a, b);
    ElseMeans(b, Logged(test, c.s), env);
    assert LiveTail(t, c.s, env) == Live(branch, Logged(test, c.s), env);
    assert MeaningTail(t, c.s, env) == Meaning(branch, Logged(test, c.s), env);
    hide LiveTail, Live, MeaningTail, Meaning, Flat, FlatTail;
    MachineRefinesMeaning(branch, Logged(test, c.s), env, limit - |c.stack|);
    if |c.stack| + LiveTail(t, c.s, env) <= limit {
      RunLive(lines, c, t, env, limit);
    } else {
      FailTail(lines, c, t, env, limit);
    }
  }

  /** #ifdef m: the first branch exactly when m is defined or built in; nothing is evaluated. */
  lemma IfdefPlays(lines: seq<Line>, c: Core, m: nat, a: Block, b: Block, env: Env, limit: nat)
    requires WellFormed(a) && WellFormed(b) && At(lines, c.pos, TwoWays(Ifdef(m), a, b)) && |c.stack| < limit
    ensures Plays(lines, c, |TwoWays(Ifdef(m), a, b)|, 0, if m in c.s.macros || m in env.builtin then a else b, c.s,
                  limit - |c.stack| - 1, env, limit)
  {
    GroupPlays(lines, c, Ifdef(m), a, b, env, limit);
  }

  lemma IfndefPlays(lines: seq<Line>, c: Core, m: nat, a: Block, b: Block, env: Env, limit: nat)
    requires WellFormed(a) && WellFormed(b) && At(lines, c.pos, TwoWays(Ifndef(m), a, b)) && |c.stack| < limit
    ensures Plays(lines, c, |TwoWays(Ifndef(m), a, b)|, 0, if m in c.s.macros || m in env.builtin then b else a, c.s,
                  limit - |c.stack| - 1, env, limit)
  {
    GroupPlays(lines, c, Ifndef(m), a, b, env, limit);
  }

  /** #if e: by the value of e, which is evaluated once. */
  lemma IfPlays(lines: seq<Line>, c: Core, e: nat, a: Block, b: Block, env: Env, limit: nat)
    requires WellFormed(a) && WellFormed(b) && At(lines, c.pos, TwoWays(If(e), a, b)) && |c.stack| < limit
    ensures Plays(lines, c, |TwoWays(If(e), a, b)|, 0, if env.eval(e, c.s.macros) then a else b,
                  State(c.s.macros, c.s.out, c.s.log + [e]), limit - |c.stack| - 1, env, limit)
  {
    GroupPlays(lines, c, If(e), a, b, env, limit);
  }

  lemma ElifdefPlays(lines: seq<Line>, c: Core, m: nat, a: Block, b: Block, env: Env, limit: nat)
    requires WellFormed(a) && WellFormed(b) && At(lines, c.pos, TwoWays(Elifdef(m), a, b))
    requires 0 < |c.stack| <= limit && c.stack[|c.stack| - 1] == 0
    ensures Plays(lines, c, |TwoWays(Elifdef(m), a, b)|, 1, if m in c.s.macros || m in env.builtin then a else b, c.s,
                  limit - |c.stack|, env, limit)
  {
    RestPlays(lines, c, Elifdef(m), a, b, env, limit);
  }

  lemma ElifndefPlays(lines: seq<Line>, c: Core, m: nat, a: Block, b: Block, env: Env, limit: nat)
    requires WellFormed(a) && WellFormed(b) && At(lines, c.pos, TwoWays(Elifndef(m), a, b))
    requires 0 < |c.stack| <= limit && c.stack[|c.stack| - 1] == 0
    ensures Plays(lines, c, |TwoWays(Elifndef(m), a, b)|, 1, if m in c.s.macros || m in env.builtin then b else a, c.s,
                  limit - |c.stack|, env, limit)
  {
    RestPlays(lines, c, Elifndef(m), a, b, env, limit);
  }

  lemma ElifPlays(lines: seq<Line>, c: Core, e: nat, a: Block, b: Block, env: Env, limit: nat)
    requires WellFormed(a) && WellFormed(b) && At(lines, c.pos, TwoWays(Elif(e), a, b))
    requires 0 < |c.stack| <= limit && c.stack[|c.stack| - 1] == 0
    ensures Plays(lines, c, |TwoWays(Elif(e), a, b)|, 1, if env.eval(e, c.s.macros) then a else b,
                  State(c.s.macros, c.s.out, c.s.log + [e]), limit - |c.stack|, env, limit)
  {
    RestPlays(lines, c, Elif(e), a, b, env, limit);
  }

  /** Any other line: its text is emitted and its definitions made; a blank one does nothing. */
  lemma LinePlays(lines: seq<Line>, c: Core, env: Env, limit: nat)
    requires c.pos < |lines| && (lines[c.pos].Active? || lines[c.pos].Blank?)
    ensures var l := lines[c.pos];
            var (macros, text) := if l.Active? then env.effect(l.k, c.s.macros) else (c.s.macros, []);
            Reaches(lines, c, Core(c.pos + 1, c.stack, State(macros, c.s.out + text, c.s.log)), env, limit)
  {
    assert c.s.out + [] == c.s.out;
  }

  /** A file that is such a group is read as its branch is run. */
  lemma ReadPlays(lines: seq<Line>, macros: set<nat>, branch: Block, s: State, room: nat, env: Env, limit: nat)
    requires Plays(lines, Core(0, [], State(macros, [], [])), |lines|, 0, branch, s, room, env, limit)
    ensures var r := Read(lines, macros, env, limit);
            match CoreRun(Flat(branch), Core(0, [], s), env, room)
            case Ok(d) => r.Ok? && r.v.core == Core(|lines|, [], d.s)
            case Err => r == Err
  {
    WatchRunIsCoreRun(lines, Start(macros), env, limit);
    hide Flat, CoreStep;
  }

  /** The whole file under #ifdef: its text is read exactly when the macro is defined. */
  lemma IfdefFile(m: nat, a: Block, b: Block, macros: set<nat>, env: Env, limit: nat)
    requires WellFormed(a) && WellFormed(b) && limit > 0
    ensures var r := Read(TwoWays(Ifdef(m), a, b), macros, env, limit);
            match CoreRun(Flat(if m in macros || m in env.builtin then a else b), Core(0, [], State(macros, [], [])), env, limit - 1)
            case Ok(d) => r.Ok? && r.v.core == Core(|TwoWays(Ifdef(m), a, b)|, [], d.s)
            case Err => r == Err
  {
    hide CoreRun, Read, Flat;
    var lines, c := TwoWays(Ifdef(m), a, b), Core(0, [], State(macros, [], []));
    assert lines[0..|lines|] == lines;
    IfdefPlays(lines, c, m, a, b, env, limit);
    ReadPlays(lines, macros, if m in macros || m in env.builtin then a else b, c.s, limit - 1, env, limit);
  }

  // ---- texts that are not well nested --------------------------------------------------------

  /** #else, #elif and #endif outside every group are errors. */
  lemma OutsideFails(lines: seq<Line>, c: Core, env: Env, limit: nat)
    requires c.pos < |lines| && c.stack == [] && (lines[c.pos] == Else || lines[c.pos] == Endif || IsElif(lines[c.pos]))
    ensures Fails(lines, c, env, limit)
  {}

  /** The end of the text inside a group is an error. */
  lemma EndFails(lines: seq<Line>, c: Core, env: Env, limit: nat)
    requires c.pos == |lines| && c.stack != []
    ensures Fails(lines, c, env, limit)
  {}

  /** Behind the #else of a group the machine stands with 2 or 3 on its stack; another
      #else or an #elif is an error then. */
  lemma AfterElseFails(lines: seq<Line>, c: Core, env: Env, limit: nat)
    requires c.pos < |lines| && c.stack != [] && c.stack[|c.stack| - 1] >= 2 && (lines[c.pos] == Else || IsElif(lines[c.pos]))
    ensures Fails(lines, c, env, limit)
  {}

  ghost predicate FailsIn(lines: seq<Line>, pos: nat, stack: seq<bv2>, s: State, env: Env, limit: nat) {
    Fails(lines, Core(pos, stack, s), env, limit)
  }

  /** Whatever the run has done when it gets there. */
  ghost predicate AlwaysFails(lines: seq<Line>, pos: nat, stack: seq<bv2>, env: Env, limit: nat) {
    forall s: State :: FailsIn(lines, pos, stack, s, env, limit)
  }

  lemma RunOrFail(lines: seq<Line>, c: Core, b: Block, env: Env, limit: nat)
    requires WellFormed(b) && At(lines, c.pos, Flat(b)) && |c.stack| <= limit
    requires AlwaysFails(lines, c.pos + |Flat(b)|, c.stack, env, limit)
    ensures Fails(lines, c, env, limit)
  {
    hide CoreRun, CoreStep, At, Flat, Live;
    assert FailsIn(lines, c.pos + |Flat(b)|, c.stack, Meaning(b, c.s, env), env, limit);
    if |c.stack| + Live(b, c.s, env) <= limit {
      RunBlock(lines, c, b, env, limit);
    } else {
      FailBlock(lines, c, b, env, limit);
    }
  }

  /** A group with a second #else, or with an #elif behind its #else, is an error, whichever
      branch is taken. */
  lemma ElseTwiceFails(lines: seq<Line>, c: Core, test: Line, a: Block, b: Block, more: Line, env: Env, limit: nat)
    requires IsIf(test) && WellFormed(a) && WellFormed(b) && (more == Else || IsElif(more))
    requires At(lines, c.pos, [test] + (Flat(a) + ([Else] + (Flat(b) + [more])))) && |c.stack| <= limit
    ensures Fails(lines, c, env, limit)
  {
    hide CoreRun, At, Flat, Skip, Reaches, Fails, Holds, Logged;
    Parts(lines, c.pos, test, a, [Else] + (Flat(b) + [more]));
    var at := c.pos + 1 + |Flat(a)|;
    Parts(lines, at, Else, b, [more]);
    AtOne(lines, at + 1 + |Flat(b)|, more);
    var taken, s := Holds(test, c.s, env), Logged(test, c.s);
    var stack := c.stack + [Bit(taken)];
    if |c.stack| == limit {
      FullFails(lines, c, env, limit);
    } else if taken {
      var d := Core(c.pos + 1, stack, s);
      forall s2: State ensures FailsIn(lines, at, stack, s2, env, limit) {
        SkipBlock(lines, at + 1, b, 0);
        SkipOne(lines, at + 1 + |Flat(b)|, 0);
        var e := Core(at + 1 + |Flat(b)|, stack[|c.stack| := 2], s2);
        OneStep(lines, Core(at, stack, s2), e, env, limit);
        AfterElseFails(lines, e, env, limit);
        FailsFrom(lines, Core(at, stack, s2), e, env, limit);
      }
      OneStep(lines, c, d, env, limit);
      RunOrFail(lines, d, a, env, limit);
      FailsFrom(lines, c, d, env, limit);
    } else {
      SkipBlock(lines, c.pos + 1, a, 0);
      SkipOne(lines, at, 0);
      var d, e := Core(at, stack, s), Core(at + 1, stack[|c.stack| := 3], s);
      OneStep(lines, c, d, env, limit);
      ElseEnters(lines, d, env, limit);
      var end := e.pos + |Flat(b)|;
      forall s2: State ensures FailsIn(lines, end, e.stack, s2, env, limit) {
        AfterElseFails(lines, Core(e.pos + |Flat(b)|, e.stack, s2), env, limit);
      }
      RunOrFail(lines, e, b, env, limit);
      FailsFrom(lines, d, e, env, limit);
      FailsFrom(lines, c, d, env, limit);
    }
  }

  lemma FullFails(lines: seq<Line>, c: Core, env: Env, limit: nat)
    requires c.pos < |lines| && IsIf(lines[c.pos]) && |c.stack| >= limit
    ensures Fails(lines, c, env, limit)
  {}

  /** A group that is never closed is an error. */
  lemma UnclosedFails(lines: seq<Line>, c: Core, test: Line, a: Block, env: Env, limit: nat)
    requires IsIf(test) && WellFormed(a) && |c.stack| <= limit
    requires At(lines, c.pos, [test] + Flat(a)) && c.pos + 1 + |Flat(a)| == |lines|
    ensures Fails(lines, c, env, limit)
  {
    hide CoreRun, At, Flat, Reaches, Fails, Holds, Logged;
    AtSplit(lines, c.pos, [test], Flat(a));
    var taken, s := Holds(test, c.s, env), Logged(test, c.s);
    var stack := c.stack + [Bit(taken)];
    if |c.stack| == limit {
      FullFails(lines, c, env, limit);
    } else if taken {
      var d := Core(c.pos + 1, stack, s);
      var end := d.pos + |Flat(a)|;
      forall s2: State ensures FailsIn(lines, end, stack, s2, env, limit) {
        EndFails(lines, Core(d.pos + |Flat(a)|, stack, s2), env, limit);
      }
      OneStep(lines, c, d, env, limit);
      RunOrFail(lines, d, a, env, limit);
      FailsFrom(lines, c, d, env, limit);
    } else {
      SkipBlock(lines, c.pos + 1, a, 0);
      SkippedToEnd(lines, c, env, limit);
    }
  }

  lemma SkippedToEnd(lines: seq<Line>, c: Core, env: Env, limit: nat)
    requires c.pos < |lines| && IsIf(lines[c.pos]) && !Holds(lines[c.pos], c.s, env)
    requires Skip(lines, c.pos + 1, 0) == Skip(lines, |lines|, 0)
    ensures Fails(lines, c, env, limit)
  {
    hide Holds, Logged;
  }
}
