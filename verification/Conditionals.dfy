/** Conditional inclusion: the ifdef stack with its values 0..3 and the fast skipper
    with its nesting counter, against a recursive reading of section 6.10.1 of
    ISO/IEC 9899:2011. */
module Conditionals {

  /** A source line. Active covers text and every directive that is not
      conditional; Blank covers empty lines, comments and the null directive. */
  datatype Line =
    | Active(k: nat) | Blank
    | If(e: nat) | Ifdef(m: nat) | Ifndef(m: nat)
    | Elif(e: nat) | Elifdef(m: nat) | Elifndef(m: nat)
    | Else | Endif

  predicate IsIf(l: Line) { l.If? || l.Ifdef? || l.Ifndef? }

  predicate IsElif(l: Line) { l.Elif? || l.Elifdef? || l.Elifndef? }

  /** What lines mean: the value of an expression, the effect of an active line on
      the set of defined macros and its output, and the names that #ifdef takes
      as defined although no macro (__has_include and the like). */
  datatype Env = Env(eval: (nat, set<nat>) -> bool, effect: (nat, set<nat>) -> (set<nat>, seq<nat>), builtin: set<nat>)

  /** Defined macros, text emitted, and the conditions evaluated so far. */
  datatype State = State(macros: set<nat>, out: seq<nat>, log: seq<nat>)

  datatype Result<T> = Ok(v: T) | Err

  function Act(k: nat, s: State, env: Env): State {
    var (macros, text) := env.effect(k, s.macros);
    State(macros, s.out + text, s.log)
  }

  predicate Holds(l: Line, s: State, env: Env)
    requires IsIf(l) || IsElif(l)
  {
    match l
    case If(e) => env.eval(e, s.macros)
    case Elif(e) => env.eval(e, s.macros)
    case Ifdef(m) => m in s.macros || m in env.builtin
    case Elifdef(m) => m in s.macros || m in env.builtin
    case Ifndef(m) => !(m in s.macros || m in env.builtin)
    case Elifndef(m) => !(m in s.macros || m in env.builtin)
  }

  function Logged(l: Line, s: State): State {
    match l
    case If(e) => s.(log := s.log + [e])
    case Elif(e) => s.(log := s.log + [e])
    case _ => s
  }

  // ---- the machine: preprocess_skip and preprocess --------------------------

  /** preprocess_skip from line `pos` with nesting counter `a`: where it stops. */
  function Skip(lines: seq<Line>, pos: nat, a: nat): (r: Result<nat>)
    ensures r.Ok? ==> pos <= r.v < |lines| && (lines[r.v] == Else || IsElif(lines[r.v]) || lines[r.v] == Endif)
    decreases |lines| - pos
  {
    if pos >= |lines| then Err
    else
      var l := lines[pos];
      if a == 0 && (l == Else || IsElif(l) || l == Endif) then Ok(pos)
      else if IsIf(l) then Skip(lines, pos + 1, a + 1)
      else if l == Endif then Skip(lines, pos + 1, a - 1)
      else Skip(lines, pos + 1, a)
  }

  datatype Core = Core(pos: nat, stack: seq<bv2>, s: State)

  /** test_skip: on to the next line, or skip to the directive that ends the group. */
  function Go(lines: seq<Line>, pos: nat, taken: bool, stack: seq<bv2>, s: State): Result<Core> {
    if taken then Ok(Core(pos + 1, stack, s))
    else match Skip(lines, pos + 1, 0) case Ok(t) => Ok(Core(t, stack, s)) case Err => Err
  }

  function Bit(c: bool): bv2 { if c then 1 else 0 }

  /** One line; `limit` is IFDEF_STACK_SIZE. */
  function CoreStep(lines: seq<Line>, c: Core, env: Env, limit: nat): (r: Result<Core>)
    requires c.pos < |lines|
    ensures r.Ok? ==> c.pos < r.v.pos <= |lines|
  {
    var l, n := lines[c.pos], |c.stack|;
    if l.Active? then Ok(Core(c.pos + 1, c.stack, Act(l.k, c.s, env)))
    else if l.Blank? then Ok(Core(c.pos + 1, c.stack, c.s))
    else if IsIf(l) then
      var taken := Holds(l, c.s, env);
      if n >= limit then Err
      else Go(lines, c.pos, taken, c.stack + [Bit(taken)], Logged(l, c.s))
    else if n == 0 then Err
    else if l.Endif? then Ok(Core(c.pos + 1, c.stack[..n - 1], c.s))
    else
      var top := c.stack[n - 1];
      if l.Else? then
        if top & 2 != 0 then Err
        else Go(lines, c.pos, (top ^ 3) & 1 != 0, c.stack[n - 1 := top ^ 3], c.s)
      else if top > 1 then Err
      else if top == 1 then Go(lines, c.pos, false, c.stack, c.s)
      else
        var taken := Holds(l, c.s, env);
        Go(lines, c.pos, taken, c.stack[n - 1 := Bit(taken)], Logged(l, c.s))
  }

  function CoreRun(lines: seq<Line>, c: Core, env: Env, limit: nat): Result<Core>
    requires c.pos <= |lines|
    decreases |lines| - c.pos
  {
    if c.pos == |lines| then (if c.stack == [] then Ok(c) else Err)
    else match CoreStep(lines, c, env, limit) case Ok(d) => CoreRun(lines, d, env, limit) case Err => Err
  }

  // ---- the recursive reading -------------------------------------------------

  datatype Block = Nil | Cons(item: Item, rest: Block)
  datatype Item = Plain(l: Line) | Group(test: Line, body: Block, tail: Tail)
  datatype Tail = End | Otherwise(body: Block) | OrIf(test: Line, body: Block, tail: Tail)

  ghost predicate WellFormed(b: Block) {
    b.Cons? ==> WellFormedItem(b.item) && WellFormed(b.rest)
  }

  ghost predicate WellFormedItem(i: Item) {
    match i
    case Plain(l) => l.Active? || l.Blank?
    case Group(test, body, tail) => IsIf(test) && WellFormed(body) && WellFormedTail(tail)
  }

  ghost predicate WellFormedTail(t: Tail) {
    match t
    case End => true
    case Otherwise(body) => WellFormed(body)
    case OrIf(test, body, tail) => IsElif(test) && WellFormed(body) && WellFormedTail(tail)
  }

  function Flat(b: Block): seq<Line> {
    match b
    case Nil => []
    case Cons(i, rest) => FlatItem(i) + Flat(rest)
  }

  function FlatItem(i: Item): seq<Line> {
    match i
    case Plain(l) => [l]
    case Group(test, body, tail) => [test] + (Flat(body) + FlatTail(tail))
  }

  function FlatTail(t: Tail): seq<Line> {
    match t
    case End => [Endif]
    case Otherwise(body) => [Else] + (Flat(body) + [Endif])
    case OrIf(test, body, tail) => [test] + (Flat(body) + FlatTail(tail))
  }

  function Max(a: nat, b: nat): nat { if a < b then b else a }

  /** Only the first group whose condition holds, or the #else group, is
      processed; a condition is evaluated only when no earlier one held. */
  function Meaning(b: Block, s: State, env: Env): State
    requires WellFormed(b)
  {
    match b
    case Nil => s
    case Cons(i, rest) => Meaning(rest, MeaningItem(i, s, env), env)
  }

  function MeaningItem(i: Item, s: State, env: Env): State
    requires WellFormedItem(i)
  {
    match i
    case Plain(l) => if l.Active? then Act(l.k, s, env) else s
    case Group(test, body, tail) =>
      if Holds(test, s, env) then Meaning(body, Logged(test, s), env) else MeaningTail(tail, Logged(test, s), env)
  }

  function MeaningTail(t: Tail, s: State, env: Env): State
    requires WellFormedTail(t)
  {
    match t
    case End => s
    case Otherwise(body) => Meaning(body, s, env)
    case OrIf(test, body, tail) =>
      if Holds(test, s, env) then Meaning(body, Logged(test, s), env) else MeaningTail(tail, Logged(test, s), env)
  }

  ghost function Size(b: Block): nat {
    match b case Nil => 0 case Cons(i, rest) => 1 + SizeItem(i) + Size(rest)
  }

  ghost function SizeItem(i: Item): nat {
    match i case Plain(_) => 0 case Group(_, body, tail) => 1 + Size(body) + SizeTail(tail)
  }

  ghost function SizeTail(t: Tail): nat {
    match t
    case End => 0
    case Otherwise(body) => 1 + Size(body)
    case OrIf(_, body, tail) => 1 + Size(body) + SizeTail(tail)
  }

  /** How deep the groups that are processed nest; what is skipped does not count. */
  ghost function Live(b: Block, s: State, env: Env): nat
    requires WellFormed(b)
    decreases Size(b), 0
  {
    match b
    case Nil => 0
    case Cons(i, rest) => Max(LiveItem(i, s, env), Live(rest, MeaningItem(i, s, env), env))
  }

  ghost function LiveItem(i: Item, s: State, env: Env): nat
    requires WellFormedItem(i)
    decreases SizeItem(i), 0
  {
    match i
    case Plain(_) => 0
    case Group(test, body, tail) => 1 + LiveBranch(Holds(test, s, env), body, tail, Logged(test, s), env)
  }

  ghost function LiveTail(t: Tail, s: State, env: Env): nat
    requires WellFormedTail(t)
    decreases SizeTail(t), 0
  {
    match t
    case End => 0
    case Otherwise(body) => Live(body, s, env)
    case OrIf(test, body, tail) => LiveBranch(Holds(test, s, env), body, tail, Logged(test, s), env)
  }

  ghost function LiveBranch(taken: bool, body: Block, tail: Tail, s: State, env: Env): nat
    requires WellFormed(body) && WellFormedTail(tail)
    decreases Size(body) + SizeTail(tail), 1
  {
    if taken then Live(body, s, env) else LiveTail(tail, s, env)
  }

  // ---- the machine refines the reading ---------------------------------------

  ghost predicate At(lines: seq<Line>, pos: nat, part: seq<Line>) {
    pos + |part| <= |lines| && lines[pos..pos + |part|] == part
  }

  lemma AtSplit(lines: seq<Line>, pos: nat, a: seq<Line>, b: seq<Line>)
    requires At(lines, pos, a + b)
    ensures At(lines, pos, a) && At(lines, pos + |a|, b)
    ensures |a| == 1 ==> lines[pos] == a[0]
  {
    var all := lines[pos..pos + |a + b|];
    assert all[..|a|] == a && all[|a|..] == b;
    assert lines[pos..pos + |a|] == all[..|a|] && lines[pos + |a|..pos + |a| + |b|] == all[|a|..];
    assert |a| == 1 ==> all[0] == lines[pos];
  }

  /** A directive line, the group it opens, and what follows the group. */
  lemma Parts(lines: seq<Line>, pos: nat, head: Line, body: Block, after: seq<Line>)
    requires At(lines, pos, [head] + (Flat(body) + after))
    ensures pos < |lines| && lines[pos] == head
    ensures At(lines, pos + 1, Flat(body)) && At(lines, pos + 1 + |Flat(body)|, after)
    ensures |[head] + (Flat(body) + after)| == 1 + |Flat(body)| + |after|
  {
    hide Flat;
    AtSplit(lines, pos, [head], Flat(body) + after);
    AtSplit(lines, pos + 1, Flat(body), after);
  }

  lemma SkipOne(lines: seq<Line>, pos: nat, a: nat)
    requires pos < |lines|
    ensures var l := lines[pos];
            Skip(lines, pos, a) ==
            if a == 0 && (l == Else || IsElif(l) || l == Endif) then Ok(pos)
            else Skip(lines, pos + 1, if IsIf(l) then a + 1 else if l == Endif then a - 1 else a)
  {}

  /** The skipper passes over a well-nested stretch at any counter. */
  lemma {:induction false} SkipBlock(lines: seq<Line>, pos: nat, b: Block, a: nat)
    requires WellFormed(b) && At(lines, pos, Flat(b))
    ensures Skip(lines, pos, a) == Skip(lines, pos + |Flat(b)|, a)
    decreases b
  {
    hide Skip;
    if b.Cons? {
      AtSplit(lines, pos, FlatItem(b.item), Flat(b.rest));
      SkipItem(lines, pos, b.item, a);
      SkipBlock(lines, pos + |FlatItem(b.item)|, b.rest, a);
    }
  }

  lemma {:induction false} SkipItem(lines: seq<Line>, pos: nat, i: Item, a: nat)
    requires WellFormedItem(i) && At(lines, pos, FlatItem(i))
    ensures Skip(lines, pos, a) == Skip(lines, pos + |FlatItem(i)|, a)
    decreases i
  {
    hide Skip, At;
    match i
    case Plain(l) =>
      AtOne(lines, pos, l);
      SkipOne(lines, pos, a);
    case Group(test, body, tail) =>
      Parts(lines, pos, test, body, FlatTail(tail));
      SkipOne(lines, pos, a);
      SkipBlock(lines, pos + 1, body, a + 1);
      SkipTail(lines, pos + 1 + |Flat(body)|, tail, a + 1);
  }

  lemma AtOne(lines: seq<Line>, pos: nat, l: Line)
    requires At(lines, pos, [l])
    ensures pos < |lines| && lines[pos] == l
  {
    assert lines[pos..pos + 1][0] == l;
  }

  lemma {:induction false} SkipTail(lines: seq<Line>, pos: nat, t: Tail, a: nat)
    requires WellFormedTail(t) && At(lines, pos, FlatTail(t)) && a > 0
    ensures Skip(lines, pos, a) == Skip(lines, pos + |FlatTail(t)|, a - 1)
    decreases t
  {
    hide Skip, At;
    match t
    case End =>
      AtOne(lines, pos, Endif);
      SkipOne(lines, pos, a);
    case Otherwise(body) =>
      Parts(lines, pos, Else, body, [Endif]);
      SkipOne(lines, pos, a);
      SkipBlock(lines, pos + 1, body, a);
      AtOne(lines, pos + 1 + |Flat(body)|, Endif);
      SkipOne(lines, pos + 1 + |Flat(body)|, a);
    case OrIf(test, body, tail) =>
      Parts(lines, pos, test, body, FlatTail(tail));
      SkipOne(lines, pos, a);
      SkipBlock(lines, pos + 1, body, a);
      SkipTail(lines, pos + 1 + |Flat(body)|, tail, a);
  }

  /** ... and stops at the directive that ends the group it began in. */
  lemma SkipToTail(lines: seq<Line>, pos: nat, body: Block, t: Tail)
    requires WellFormed(body) && WellFormedTail(t)
    requires At(lines, pos, Flat(body)) && At(lines, pos + |Flat(body)|, FlatTail(t))
    ensures Skip(lines, pos, 0) == Ok(pos + |Flat(body)|)
  {
    hide Skip, Flat;
    SkipBlock(lines, pos, body, 0);
    var at, first := pos + |Flat(body)|, FlatTail(t)[..1];
    assert FlatTail(t) == first + FlatTail(t)[1..];
    AtSplit(lines, at, first, FlatTail(t)[1..]);
    SkipOne(lines, at, 0);
  }

  /** The machine run from c continues as from d. */
  ghost predicate Reaches(lines: seq<Line>, c: Core, d: Core, env: Env, limit: nat) {
    c.pos <= |lines| && d.pos <= |lines| && CoreRun(lines, c, env, limit) == CoreRun(lines, d, env, limit)
  }

  lemma OneStep(lines: seq<Line>, c: Core, d: Core, env: Env, limit: nat)
    requires c.pos < |lines| && CoreStep(lines, c, env, limit) == Ok(d)
    ensures Reaches(lines, c, d, env, limit)
  {
    hide CoreStep;
  }

  lemma Transitive(lines: seq<Line>, c: Core, d: Core, e: Core, env: Env, limit: nat)
    requires Reaches(lines, c, d, env, limit) && Reaches(lines, d, e, env, limit)
    ensures Reaches(lines, c, e, env, limit)
  {}

  lemma {:induction false} RunBlock(lines: seq<Line>, c: Core, b: Block, env: Env, limit: nat)
    requires WellFormed(b) && At(lines, c.pos, Flat(b)) && |c.stack| + Live(b, c.s, env) <= limit
    ensures Reaches(lines, c, Core(c.pos + |Flat(b)|, c.stack, Meaning(b, c.s, env)), env, limit)
    decreases Size(b), 0
  {
    hide CoreRun;
    if b.Cons? {
      AtSplit(lines, c.pos, FlatItem(b.item), Flat(b.rest));
      var d := Core(c.pos + |FlatItem(b.item)|, c.stack, MeaningItem(b.item, c.s, env));
      RunItem(lines, c, b.item, env, limit);
      RunBlock(lines, d, b.rest, env, limit);
    }
  }

  /** The first branch of a group, or of what is left of one, has been judged:
      `c` is at its directive, `stack` is the stack after it. */
  lemma {:induction false} RunBranch(lines: seq<Line>, c: Core, taken: bool, stack: seq<bv2>, s: State, body: Block, tail: Tail,
                                     env: Env, limit: nat)
    requires c.pos < |lines| && WellFormed(body) && WellFormedTail(tail)
    requires At(lines, c.pos + 1, Flat(body)) && At(lines, c.pos + 1 + |Flat(body)|, FlatTail(tail))
    requires stack != [] && stack[|stack| - 1] == Bit(taken) && |stack| + LiveBranch(taken, body, tail, s, env) <= limit
    requires CoreStep(lines, c, env, limit) == Go(lines, c.pos, taken, stack, s)
    ensures Reaches(lines, c, Core(c.pos + 1 + |Flat(body)| + |FlatTail(tail)|, stack[..|stack| - 1],
                                   if taken then Meaning(body, s, env) else MeaningTail(tail, s, env)), env, limit)
    decreases Size(body) + SizeTail(tail), 1
  {
    hide CoreStep, CoreRun, At, Skip, Flat, FlatTail, Meaning, MeaningTail, Live, LiveTail, Reaches;
    var tailPos := c.pos + 1 + |Flat(body)|;
    if taken {
      var d, e := Core(c.pos + 1, stack, s), Core(tailPos, stack, Meaning(body, s, env));
      OneStep(lines, c, d, env, limit);
      RunBlock(lines, d, body, env, limit);
      RunDead(lines, e, tail, env, limit);
      Transitive(lines, c, d, e, env, limit);
      Transitive(lines, c, e, Core(tailPos + |FlatTail(tail)|, stack[..|stack| - 1], e.s), env, limit);
    } else {
      SkipToTail(lines, c.pos + 1, body, tail);
      var d := Core(tailPos, stack, s);
      OneStep(lines, c, d, env, limit);
      RunLive(lines, d, tail, env, limit);
      Transitive(lines, c, d, Core(tailPos + |FlatTail(tail)|, stack[..|stack| - 1], MeaningTail(tail, s, env)), env, limit);
    }
  }

  lemma {:induction false} RunItem(lines: seq<Line>, c: Core, i: Item, env: Env, limit: nat)
    requires WellFormedItem(i) && At(lines, c.pos, FlatItem(i)) && |c.stack| + LiveItem(i, c.s, env) <= limit
    ensures Reaches(lines, c, Core(c.pos + |FlatItem(i)|, c.stack, MeaningItem(i, c.s, env)), env, limit)
    decreases SizeItem(i), 0
  {
    hide CoreRun, At, Skip, Reaches;
    match i
    case Plain(l) =>
      AtOne(lines, c.pos, l);
      OneStep(lines, c, Core(c.pos + 1, c.stack, MeaningItem(i, c.s, env)), env, limit);
    case Group(test, body, tail) =>
      Parts(lines, c.pos, test, body, FlatTail(tail));
      var taken := Holds(test, c.s, env);
      var stack := c.stack + [Bit(taken)];
      RunBranch(lines, c, taken, stack, Logged(test, c.s), body, tail, env, limit);
      assert stack[..|stack| - 1] == c.stack;
  }

  /** The end of a group: #endif pops its entry. */
  lemma RunEndif(lines: seq<Line>, c: Core, env: Env, limit: nat)
    requires At(lines, c.pos, [Endif]) && c.stack != []
    ensures Reaches(lines, c, Core(c.pos + 1, c.stack[..|c.stack| - 1], c.s), env, limit)
  {
    AtOne(lines, c.pos, Endif);
    OneStep(lines, c, Core(c.pos + 1, c.stack[..|c.stack| - 1], c.s), env, limit);
  }

  /** #else after untaken branches turns the entry 0 into 3, and 3 is odd. */
  lemma ElseEnters(lines: seq<Line>, c: Core, env: Env, limit: nat)
    requires c.pos < |lines| && lines[c.pos] == Else && c.stack != [] && c.stack[|c.stack| - 1] == 0
    ensures Reaches(lines, c, Core(c.pos + 1, c.stack[|c.stack| - 1 := 3], c.s), env, limit)
  {
    OneStep(lines, c, Core(c.pos + 1, c.stack[|c.stack| - 1 := 3], c.s), env, limit);
  }

  /** The rest of a group none of whose branches was taken yet. */
  lemma {:induction false} RunLive(lines: seq<Line>, c: Core, t: Tail, env: Env, limit: nat)
    requires WellFormedTail(t) && At(lines, c.pos, FlatTail(t))
    requires c.stack != [] && c.stack[|c.stack| - 1] == 0 && |c.stack| + LiveTail(t, c.s, env) <= limit
    ensures Reaches(lines, c, Core(c.pos + |FlatTail(t)|, c.stack[..|c.stack| - 1], MeaningTail(t, c.s, env)), env, limit)
    decreases SizeTail(t), 0
  {
    hide CoreRun, At, Skip, Reaches, Meaning, Flat;
    var n := |c.stack| - 1;
    match t
    case End =>
      RunEndif(lines, c, env, limit);
    case Otherwise(body) =>
      RunElse(lines, c, body, env, limit);
    case OrIf(test, body, tail) =>
      Parts(lines, c.pos, test, body, FlatTail(tail));
      var taken := Holds(test, c.s, env);
      var stack := c.stack[n := Bit(taken)];
      RunBranch(lines, c, taken, stack, Logged(test, c.s), body, tail, env, limit);
      assert stack[..n] == c.stack[..n];
  }

  /** The #else group of which no branch was taken, and its #endif. */
  lemma {:induction false} RunElse(lines: seq<Line>, c: Core, body: Block, env: Env, limit: nat)
    requires WellFormed(body) && At(lines, c.pos, [Else] + (Flat(body) + [Endif]))
    requires c.stack != [] && c.stack[|c.stack| - 1] == 0 && |c.stack| + Live(body, c.s, env) <= limit
    ensures Reaches(lines, c, Core(c.pos + |Flat(body)| + 2, c.stack[..|c.stack| - 1], Meaning(body, c.s, env)), env, limit)
    decreases Size(body), 2
  {
    hide CoreRun, CoreStep, At, Skip, Reaches, Meaning, Flat, Live;
    var n := |c.stack| - 1;
    Parts(lines, c.pos, Else, body, [Endif]);
    var d := Core(c.pos + 1, c.stack[n := 3], c.s);
    ElseEnters(lines, c, env, limit);
    RunBlock(lines, d, body, env, limit);
    var e := Core(c.pos + 1 + |Flat(body)|, d.stack, Meaning(body, c.s, env));
    RunEndif(lines, e, env, limit);
    Transitive(lines, c, d, e, env, limit);
    assert d.stack[..n] == c.stack[..n];
    Transitive(lines, c, e, Core(e.pos + 1, c.stack[..n], e.s), env, limit);
  }

  /** The rest of a group after its taken branch: nothing is emitted or evaluated. */
  lemma {:induction false} RunDead(lines: seq<Line>, c: Core, t: Tail, env: Env, limit: nat)
    requires WellFormedTail(t) && At(lines, c.pos, FlatTail(t)) && c.stack != [] && c.stack[|c.stack| - 1] == 1
    ensures Reaches(lines, c, Core(c.pos + |FlatTail(t)|, c.stack[..|c.stack| - 1], c.s), env, limit)
    decreases SizeTail(t), 0
  {
    hide CoreRun, At, Skip, Reaches;
    var n := |c.stack| - 1;
    match t
    case End =>
      RunEndif(lines, c, env, limit);
    case Otherwise(body) =>
      Parts(lines, c.pos, Else, body, FlatTail(End));
      SkipToTail(lines, c.pos + 1, body, End);
      var d := Core(c.pos + 1 + |Flat(body)|, c.stack[n := 2], c.s);
      OneStep(lines, c, d, env, limit);
      RunEndif(lines, d, env, limit);
      assert d.stack[..n] == c.stack[..n];
      Transitive(lines, c, d, Core(d.pos + 1, c.stack[..n], c.s), env, limit);
    case OrIf(test, body, tail) =>
      Parts(lines, c.pos, test, body, FlatTail(tail));
      SkipToTail(lines, c.pos + 1, body, tail);
      var d := Core(c.pos + 1 + |Flat(body)|, c.stack, c.s);
      OneStep(lines, c, d, env, limit);
      RunDead(lines, d, tail, env, limit);
      Transitive(lines, c, d, Core(d.pos + |FlatTail(tail)|, c.stack[..n], c.s), env, limit);
  }

  // ---- beyond the stack ----------------------------------------------------------

  ghost predicate Fails(lines: seq<Line>, c: Core, env: Env, limit: nat) {
    c.pos <= |lines| && CoreRun(lines, c, env, limit) == Err
  }

  lemma FailsFrom(lines: seq<Line>, c: Core, d: Core, env: Env, limit: nat)
    requires Reaches(lines, c, d, env, limit) && Fails(lines, d, env, limit)
    ensures Fails(lines, c, env, limit)
  {}

  lemma {:induction false} FailBlock(lines: seq<Line>, c: Core, b: Block, env: Env, limit: nat)
    requires WellFormed(b) && At(lines, c.pos, Flat(b)) && |c.stack| <= limit < |c.stack| + Live(b, c.s, env)
    ensures Fails(lines, c, env, limit)
    decreases Size(b), 0
  {
    hide CoreRun, CoreStep, At, Reaches, Fails, LiveItem;
    AtSplit(lines, c.pos, FlatItem(b.item), Flat(b.rest));
    if |c.stack| + LiveItem(b.item, c.s, env) > limit {
      FailItem(lines, c, b.item, env, limit);
    } else {
      var d := Core(c.pos + |FlatItem(b.item)|, c.stack, MeaningItem(b.item, c.s, env));
      RunItem(lines, c, b.item, env, limit);
      FailBlock(lines, d, b.rest, env, limit);
      FailsFrom(lines, c, d, env, limit);
    }
  }

  lemma {:induction false} FailItem(lines: seq<Line>, c: Core, i: Item, env: Env, limit: nat)
    requires WellFormedItem(i) && At(lines, c.pos, FlatItem(i)) && |c.stack| <= limit < |c.stack| + LiveItem(i, c.s, env)
    ensures Fails(lines, c, env, limit)
    decreases SizeItem(i), 0
  {
    hide At, Skip, Reaches, LiveBranch;
    Parts(lines, c.pos, i.test, i.body, FlatTail(i.tail));
    if |c.stack| < limit {
      hide CoreRun, Fails;
      var taken := Holds(i.test, c.s, env);
      FailBranch(lines, c, taken, c.stack + [Bit(taken)], Logged(i.test, c.s), i.body, i.tail, env, limit);
    }
  }

  lemma {:induction false} FailBranch(lines: seq<Line>, c: Core, taken: bool, stack: seq<bv2>, s: State, body: Block, tail: Tail,
                                      env: Env, limit: nat)
    requires c.pos < |lines| && WellFormed(body) && WellFormedTail(tail)
    requires At(lines, c.pos + 1, Flat(body)) && At(lines, c.pos + 1 + |Flat(body)|, FlatTail(tail))
    requires stack != [] && stack[|stack| - 1] == Bit(taken)
    requires |stack| <= limit < |stack| + LiveBranch(taken, body, tail, s, env)
    requires CoreStep(lines, c, env, limit) == Go(lines, c.pos, taken, stack, s)
    ensures Fails(lines, c, env, limit)
    decreases Size(body) + SizeTail(tail), 1
  {
    hide CoreStep, CoreRun, At, Skip, Flat, FlatTail, Live, LiveTail, Reaches, Fails;
    var d;
    if taken {
      d := Core(c.pos + 1, stack, s);
      FailBlock(lines, d, body, env, limit);
    } else {
      SkipToTail(lines, c.pos + 1, body, tail);
      d := Core(c.pos + 1 + |Flat(body)|, stack, s);
      FailTail(lines, d, tail, env, limit);
    }
    OneStep(lines, c, d, env, limit);
    FailsFrom(lines, c, d, env, limit);
  }

  lemma {:induction false} FailTail(lines: seq<Line>, c: Core, t: Tail, env: Env, limit: nat)
    requires WellFormedTail(t) && At(lines, c.pos, FlatTail(t))
    requires c.stack != [] && c.stack[|c.stack| - 1] == 0 && |c.stack| <= limit < |c.stack| + LiveTail(t, c.s, env)
    ensures Fails(lines, c, env, limit)
    decreases SizeTail(t), 0
  {
    hide CoreRun, At, Skip, Reaches, Fails, Live, LiveBranch, Flat;
    var n := |c.stack| - 1;
    match t
    case End => assert false;
    case Otherwise(body) =>
      FailElse(lines, c, body, env, limit);
    case OrIf(test, body, tail) =>
      Parts(lines, c.pos, test, body, FlatTail(tail));
      var taken := Holds(test, c.s, env);
      FailBranch(lines, c, taken, c.stack[n := Bit(taken)], Logged(test, c.s), body, tail, env, limit);
  }

  lemma {:induction false} FailElse(lines: seq<Line>, c: Core, body: Block, env: Env, limit: nat)
    requires WellFormed(body) && At(lines, c.pos, [Else] + (Flat(body) + [Endif]))
    requires c.stack != [] && c.stack[|c.stack| - 1] == 0 && |c.stack| <= limit < |c.stack| + Live(body, c.s, env)
    ensures Fails(lines, c, env, limit)
    decreases Size(body), 2
  {
    hide CoreRun, CoreStep, At, Reaches, Fails, Live, Flat;
    Parts(lines, c.pos, Else, body, [Endif]);
    var d := Core(c.pos + 1, c.stack[|c.stack| - 1 := 3], c.s);
    ElseEnters(lines, c, env, limit);
    FailBlock(lines, d, body, env, limit);
    FailsFrom(lines, c, d, env, limit);
  }

  /** On every well-nested text whose processed groups fit the stack the machine emits
      what the recursive reading emits, evaluates the same conditions in the same
      order, and ends with the stack it began with; on all others it fails. */
  lemma MachineRefinesMeaning(b: Block, s: State, env: Env, limit: nat)
    requires WellFormed(b)
    ensures CoreRun(Flat(b), Core(0, [], s), env, limit) ==
            if Live(b, s, env) <= limit then Ok(Core(|Flat(b)|, [], Meaning(b, s, env))) else Err
  {
    hide Live, Meaning, CoreStep;
    assert Flat(b)[0..|Flat(b)|] == Flat(b);
    if Live(b, s, env) <= limit {
      RunBlock(Flat(b), Core(0, [], s), b, env, limit);
    } else {
      FailBlock(Flat(b), Core(0, [], s), b, env, limit);
    }
  }
}
