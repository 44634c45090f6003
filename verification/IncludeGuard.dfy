/** Include-guard detection: which files the include cache may skip, and that
    skipping them changes nothing. */
module IncludeGuard {
  import opened Conditionals
  import opened Wrappers

  /** The conditional machine with the fields that watch for a guard: whether no
      token was seen yet, file->ifndef_macro, file->ifndef_macro_saved, and
      TOK_FLAG_ENDIF. */
  datatype Watch = Watch(core: Core, bof: bool, guard: Option<nat>, saved: Option<nat>, endif: bool)

  function WatchStep(lines: seq<Line>, w: Watch, env: Env, limit: nat): (r: Result<Watch>)
    requires w.core.pos < |lines|
    ensures r.Ok? ==> w.core.pos < r.v.core.pos <= |lines|
  {
    match CoreStep(lines, w.core, env, limit)
    case Err => Err
    case Ok(d) =>
      var l := lines[w.core.pos];
      if l.Blank? then Ok(w.(core := d))
      else if l.Active? then Ok(Watch(d, false, w.guard, w.saved, false))
      else if IsIf(l) then Ok(Watch(d, false, if w.bof && l.Ifndef? then Some(l.m) else w.guard, w.saved, false))
      else if l.Endif? then
        if w.guard.Some? && d.stack == [] then Ok(Watch(d, false, None, w.guard, true))
        else Ok(Watch(d, false, w.guard, w.saved, false))
      else Ok(Watch(d, false, if |w.core.stack| == 1 then None else w.guard, w.saved, false))
  }

  function WatchRun(lines: seq<Line>, w: Watch, env: Env, limit: nat): (r: Result<Watch>)
    requires w.core.pos <= |lines|
    decreases |lines| - w.core.pos
  {
    if w.core.pos == |lines| then (if w.core.stack == [] then Ok(w) else Err)
    else match WatchStep(lines, w, env, limit) case Ok(v) => WatchRun(lines, v, env, limit) case Err => Err
  }

  function Start(macros: set<nat>): Watch { Watch(Core(0, [], State(macros, [], [])), true, None, None, false) }

  /** Reading a whole file; at its end the cache entry gets the saved guard when
      the last thing seen was its #endif. */
  function Read(lines: seq<Line>, macros: set<nat>, env: Env, limit: nat): Result<Watch> {
    WatchRun(lines, Start(macros), env, limit)
  }

  ghost predicate Records(lines: seq<Line>, macros: set<nat>, x: nat, env: Env, limit: nat) {
    var r := Read(lines, macros, env, limit);
    r.Ok? && r.v.endif && r.v.saved == Some(x)
  }

  /** The file is one #ifndef X group without #else or #elif, and nothing around it. */
  ghost predicate Guarded(lines: seq<Line>, x: nat, p: nat, q: nat) {
    && p < q < |lines| && lines[p] == Ifndef(x) && lines[q] == Endif
    && Skip(lines, p + 1, 0) == Ok(q)
    && (forall i :: 0 <= i < p ==> lines[i] == Blank)
    && (forall i :: q < i < |lines| ==> lines[i] == Blank)
  }

  /** Counting from inside a group finds the same end as counting from within. */
  lemma {:induction false} SkipLift(lines: seq<Line>, pos: nat, b: nat, t: nat, a: nat)
    requires Skip(lines, pos, b) == Ok(t)
    ensures Skip(lines, pos, a + b) == Skip(lines, t, a)
    decreases |lines| - pos
  {
    var l := lines[pos];
    if !(b == 0 && (l == Else || IsElif(l) || l == Endif)) {
      SkipLift(lines, pos + 1, if IsIf(l) then b + 1 else if l == Endif then b - 1 else b, t, a);
    }
  }

  // ---- what the watching fields remember --------------------------------------

  /** Nothing but blank lines so far. */
  ghost predicate Fresh(lines: seq<Line>, w: Watch) {
    && w.core.pos <= |lines| && w.bof && w.guard == None && !w.endif && w.core.stack == []
    && forall i :: 0 <= i < w.core.pos ==> lines[i] == Blank
  }

  /** Inside the group of the #ifndef x at line p: the skipper started behind p
      would come to this line with one level less than the stack has. */
  ghost predicate Inside(lines: seq<Line>, w: Watch, x: nat, p: nat) {
    && !w.bof && !w.endif && w.guard == Some(x) && w.core.stack != []
    && p < w.core.pos <= |lines| && lines[p] == Ifndef(x)
    && (forall i :: 0 <= i < p ==> lines[i] == Blank)
    && Skip(lines, p + 1, 0) == Skip(lines, w.core.pos, |w.core.stack| - 1)
  }

  /** Behind the #endif of that group, with only blank lines since. */
  ghost predicate Behind(lines: seq<Line>, w: Watch, x: nat, p: nat, q: nat) {
    && !w.bof && w.endif && w.guard == None && w.saved == Some(x) && w.core.stack == []
    && p < q < w.core.pos <= |lines| && lines[p] == Ifndef(x) && lines[q] == Endif && Skip(lines, p + 1, 0) == Ok(q)
    && (forall i :: 0 <= i < p ==> lines[i] == Blank)
    && (forall i :: q < i < w.core.pos ==> lines[i] == Blank)
  }

  ghost predicate Missed(w: Watch) { !w.bof && !w.endif && w.guard == None }

  ghost predicate Known(lines: seq<Line>, w: Watch) {
    && w.core.pos <= |lines|
    && (Fresh(lines, w) || Missed(w) || (exists x, p :: Inside(lines, w, x, p)) || (exists x, p, q :: Behind(lines, w, x, p, q)))
  }

  /** Where a group that is not taken leaves the machine, seen from outside. */
  lemma GoSkips(lines: seq<Line>, pos: nat, taken: bool, stack: seq<bv2>, s: State, a: nat)
    requires pos < |lines| && Go(lines, pos, taken, stack, s).Ok?
    ensures Skip(lines, pos + 1, a) == Skip(lines, Go(lines, pos, taken, stack, s).v.pos, a)
  {
    if !taken {
      SkipLift(lines, pos + 1, 0, Skip(lines, pos + 1, 0).v, a);
    }
  }

  /** A line of the group, unless it ends it or opens another branch of it. */
  lemma InsideStays(lines: seq<Line>, w: Watch, x: nat, p: nat, env: Env, limit: nat)
    requires w.core.pos < |lines| && Inside(lines, w, x, p) && WatchStep(lines, w, env, limit).Ok?
    requires var l := lines[w.core.pos]; |w.core.stack| > 1 || !(l.Endif? || l.Else? || IsElif(l))
    ensures Inside(lines, WatchStep(lines, w, env, limit).v, x, p)
  {
    var l, n := lines[w.core.pos], |w.core.stack|;
    SkipOne(lines, w.core.pos, n - 1);
    if IsIf(l) {
      var taken := Holds(l, w.core.s, env);
      GoSkips(lines, w.core.pos, taken, w.core.stack + [Bit(taken)], Logged(l, w.core.s), n);
    } else if l.Else? || IsElif(l) {
      BranchSkips(lines, w.core, env, limit);
    }
  }

  lemma InsideStep(lines: seq<Line>, w: Watch, x: nat, p: nat, env: Env, limit: nat)
    requires w.core.pos < |lines| && Inside(lines, w, x, p) && WatchStep(lines, w, env, limit).Ok?
    ensures Known(lines, WatchStep(lines, w, env, limit).v)
  {
    hide Skip;
    var v, l, n := WatchStep(lines, w, env, limit).v, lines[w.core.pos], |w.core.stack|;
    if n > 1 || !(l.Endif? || l.Else? || IsElif(l)) {
      InsideStays(lines, w, x, p, env, limit);
    } else if l.Endif? {
      InsideEnds(lines, w, x, p, env, limit);
    } else {
      assert Missed(v);
    }
  }

  /** The #endif of the group. */
  lemma InsideEnds(lines: seq<Line>, w: Watch, x: nat, p: nat, env: Env, limit: nat)
    requires w.core.pos < |lines| && Inside(lines, w, x, p) && WatchStep(lines, w, env, limit).Ok?
    requires |w.core.stack| == 1 && lines[w.core.pos].Endif?
    ensures Behind(lines, WatchStep(lines, w, env, limit).v, x, p, w.core.pos)
  {
    SkipOne(lines, w.core.pos, 0);
  }

  /** An #else or #elif keeps the stack's height and moves past one branch. */
  lemma BranchSkips(lines: seq<Line>, c: Core, env: Env, limit: nat)
    requires c.pos < |lines| && |c.stack| > 1 && (lines[c.pos] == Else || IsElif(lines[c.pos]))
    requires CoreStep(lines, c, env, limit).Ok?
    ensures var d := CoreStep(lines, c, env, limit).v;
            |d.stack| == |c.stack| && Skip(lines, c.pos + 1, |c.stack| - 1) == Skip(lines, d.pos, |c.stack| - 1)
  {
    var l, n := lines[c.pos], |c.stack|;
    var top := c.stack[n - 1];
    if l.Else? {
      GoSkips(lines, c.pos, (top ^ 3) & 1 != 0, c.stack[n - 1 := top ^ 3], c.s, n - 1);
    } else if top == 1 {
      GoSkips(lines, c.pos, false, c.stack, c.s, n - 1);
    } else {
      var taken := Holds(l, c.s, env);
      GoSkips(lines, c.pos, taken, c.stack[n - 1 := Bit(taken)], Logged(l, c.s), n - 1);
    }
  }

  lemma FreshStep(lines: seq<Line>, w: Watch, env: Env, limit: nat)
    requires w.core.pos < |lines| && Fresh(lines, w) && WatchStep(lines, w, env, limit).Ok?
    ensures Known(lines, WatchStep(lines, w, env, limit).v)
  {
    var v, l := WatchStep(lines, w, env, limit).v, lines[w.core.pos];
    if l.Blank? {
      assert Fresh(lines, v);
    } else if l.Ifndef? {
      FreshEnters(lines, w, l.m, w.core.pos, env, limit);
    } else {
      assert Missed(v);
    }
  }

  lemma BehindStep(lines: seq<Line>, w: Watch, x: nat, p: nat, q: nat, env: Env, limit: nat)
    requires w.core.pos < |lines| && Behind(lines, w, x, p, q) && WatchStep(lines, w, env, limit).Ok?
    ensures Known(lines, WatchStep(lines, w, env, limit).v)
  {
    var v, l := WatchStep(lines, w, env, limit).v, lines[w.core.pos];
    if l.Blank? {
      assert Behind(lines, v, x, p, q);
    } else {
      assert Missed(v);
    }
  }

  lemma KnownStep(lines: seq<Line>, w: Watch, env: Env, limit: nat)
    requires w.core.pos < |lines| && Known(lines, w) && WatchStep(lines, w, env, limit).Ok?
    ensures Known(lines, WatchStep(lines, w, env, limit).v)
  {
    hide WatchStep;
    if Fresh(lines, w) {
      FreshStep(lines, w, env, limit);
    } else if Missed(w) {
      MissedStep(lines, w, env, limit);
    } else if exists x, p :: Inside(lines, w, x, p) {
      var x, p :| Inside(lines, w, x, p);
      InsideStep(lines, w, x, p, env, limit);
    } else {
      var x, p, q :| Behind(lines, w, x, p, q);
      BehindStep(lines, w, x, p, q, env, limit);
    }
  }

  lemma MissedStep(lines: seq<Line>, w: Watch, env: Env, limit: nat)
    requires w.core.pos < |lines| && Missed(w) && WatchStep(lines, w, env, limit).Ok?
    ensures Known(lines, WatchStep(lines, w, env, limit).v)
  {
    assert Missed(WatchStep(lines, w, env, limit).v);
  }

  lemma {:induction false} RunShowsGuard(lines: seq<Line>, w: Watch, env: Env, limit: nat)
    requires Known(lines, w) && WatchRun(lines, w, env, limit).Ok?
    ensures var r := WatchRun(lines, w, env, limit).v;
            r.endif && r.saved.Some? ==> exists p, q :: Guarded(lines, r.saved.value, p, q)
    decreases |lines| - w.core.pos
  {
    hide WatchStep;
    if w.core.pos < |lines| {
      KnownStep(lines, w, env, limit);
      RunShowsGuard(lines, WatchStep(lines, w, env, limit).v, env, limit);
    } else if w.endif && w.saved.Some? {
      var x, p, q :| Behind(lines, w, x, p, q);
      assert Guarded(lines, x, p, q);
    }
  }

  // ---- reading a guarded file again --------------------------------------------

  lemma {:induction false} BlankRun(lines: seq<Line>, w: Watch, upTo: nat, env: Env, limit: nat)
    requires w.core.pos <= upTo <= |lines| && forall i :: w.core.pos <= i < upTo ==> lines[i] == Blank
    ensures WatchRun(lines, w, env, limit) == WatchRun(lines, w.(core := w.core.(pos := upTo)), env, limit)
    decreases upTo - w.core.pos
  {
    if w.core.pos < upTo {
      BlankRun(lines, w.(core := w.core.(pos := w.core.pos + 1)), upTo, env, limit);
    }
  }

  /** With its guard defined a guarded file is passed over: no text, no macro
      changed, no condition evaluated, and the same guard is recorded again. */
  lemma {:induction false} GuardedFileIsSkipped(lines: seq<Line>, x: nat, p: nat, q: nat, macros: set<nat>, env: Env, limit: nat)
    requires Guarded(lines, x, p, q) && x in macros && limit > 0
    ensures Read(lines, macros, env, limit) ==
            Ok(Watch(Core(|lines|, [], State(macros, [], [])), false, None, Some(x), true))
  {
    hide WatchRun;
    var w0 := Start(macros);
    BlankRun(lines, w0, p, env, limit);
    var w1 := w0.(core := w0.core.(pos := p));
    var w2 := Watch(Core(q, [0], w1.core.s), false, Some(x), None, false);
    assert [] + [Bit(false)] == [0];
    RunOne(lines, w1, w2, env, limit);
    var w3 := Watch(Core(q + 1, [], w1.core.s), false, None, Some(x), true);
    RunOne(lines, w2, w3, env, limit);
    BlankRun(lines, w3, |lines|, env, limit);
    RunEnd(lines, w3.(core := w3.core.(pos := |lines|)), env, limit);
  }

  lemma RunOne(lines: seq<Line>, w: Watch, v: Watch, env: Env, limit: nat)
    requires w.core.pos < |lines| && WatchStep(lines, w, env, limit) == Ok(v)
    ensures WatchRun(lines, w, env, limit) == WatchRun(lines, v, env, limit)
  {
    hide WatchStep;
  }

  lemma RunFails(lines: seq<Line>, w: Watch, env: Env, limit: nat)
    requires w.core.pos < |lines|
    ensures WatchStep(lines, w, env, limit) == Err ==> WatchRun(lines, w, env, limit) == Err
  {
    hide WatchStep;
  }

  lemma RunEnd(lines: seq<Line>, w: Watch, env: Env, limit: nat)
    requires w.core.pos == |lines| && w.core.stack == []
    ensures WatchRun(lines, w, env, limit) == Ok(w)
  {}

  /** A guard recorded in any macro state is good in every later one: as long as
      the guard is defined, skipping the file equals reading it. */
  lemma {:induction false} CachedSkipIsSound(lines: seq<Line>, before: set<nat>, later: set<nat>, x: nat,
                                              env1: Env, env2: Env, limit: nat)
    requires Records(lines, before, x, env1, limit) && x in later
    ensures var r := Read(lines, later, env2, limit);
            r.Ok? && r.v.core.s == State(later, [], []) && r.v.core.stack == [] && Records(lines, later, x, env2, limit)
  {
    hide WatchRun;
    RunShowsGuard(lines, Start(before), env1, limit);
    var p, q :| Guarded(lines, x, p, q);
    LimitPositive(lines, x, p, q, before, env1, limit);
    GuardedFileIsSkipped(lines, x, p, q, later, env2, limit);
  }

  lemma LimitPositive(lines: seq<Line>, x: nat, p: nat, q: nat, macros: set<nat>, env: Env, limit: nat)
    requires Guarded(lines, x, p, q) && Read(lines, macros, env, limit).Ok?
    ensures limit > 0
  {
    BlankRun(lines, Start(macros), p, env, limit);
  }

  /** In a guarded file the group ends at its #endif, however it is processed. */
  lemma {:induction false} GuardIsKept(lines: seq<Line>, w: Watch, x: nat, p: nat, q: nat, env: Env, limit: nat)
    requires Guarded(lines, x, p, q) && Inside(lines, w, x, p) && WatchRun(lines, w, env, limit).Ok?
    ensures var r := WatchRun(lines, w, env, limit).v; r.endif && r.saved == Some(x)
    decreases |lines| - w.core.pos
  {
    hide WatchStep;
    var n := |w.core.stack|;
    InsideBefore(lines, w, x, p, q);
    RunFails(lines, w, env, limit);
    var v := WatchStep(lines, w, env, limit).v;
    RunOne(lines, w, v, env, limit);
    if w.core.pos < q {
      InsideStays(lines, w, x, p, env, limit);
      GuardIsKept(lines, v, x, p, q, env, limit);
    } else {
      InsideEnds(lines, w, x, p, env, limit);
      AfterEnd(lines, w, env, limit);
      BlankRun(lines, v, |lines|, env, limit);
      RunEnd(lines, v.(core := v.core.(pos := |lines|)), env, limit);
    }
  }

  /** Inside the group no line before q ends it or opens another branch of it. */
  lemma InsideBefore(lines: seq<Line>, w: Watch, x: nat, p: nat, q: nat)
    requires Guarded(lines, x, p, q) && Inside(lines, w, x, p)
    ensures w.core.pos <= q
    ensures w.core.pos < q ==> var l := lines[w.core.pos]; |w.core.stack| > 1 || !(l.Endif? || l.Else? || IsElif(l))
    ensures w.core.pos == q ==> |w.core.stack| == 1
  {
    SkipOne(lines, w.core.pos, |w.core.stack| - 1);
  }

  lemma AfterEnd(lines: seq<Line>, w: Watch, env: Env, limit: nat)
    requires w.core.pos < |lines| && lines[w.core.pos].Endif? && WatchStep(lines, w, env, limit).Ok?
    ensures WatchStep(lines, w, env, limit).v.core.pos == w.core.pos + 1
  {}

  /** A guarded file that reads without error is recorded, whether its guard was
      defined before, is defined while it is read, or never. */
  lemma GuardedIsRecorded(lines: seq<Line>, x: nat, p: nat, q: nat, macros: set<nat>, env: Env, limit: nat)
    requires Guarded(lines, x, p, q) && Read(lines, macros, env, limit).Ok?
    ensures Records(lines, macros, x, env, limit)
  {
    hide WatchRun;
    var w0 := Start(macros);
    BlankRun(lines, w0, p, env, limit);
    var w1 := w0.(core := w0.core.(pos := p));
    RunFails(lines, w1, env, limit);
    FreshEnters(lines, w1, x, p, env, limit);
    var w2 := WatchStep(lines, w1, env, limit).v;
    RunOne(lines, w1, w2, env, limit);
    GuardIsKept(lines, w2, x, p, q, env, limit);
  }

  lemma FreshEnters(lines: seq<Line>, w: Watch, x: nat, p: nat, env: Env, limit: nat)
    requires p < |lines| && lines[p] == Ifndef(x) && Fresh(lines, w) && w.core.pos == p && WatchStep(lines, w, env, limit).Ok?
    ensures Inside(lines, WatchStep(lines, w, env, limit).v, x, p)
  {
    var taken := Holds(lines[p], w.core.s, env);
    GoSkips(lines, p, taken, w.core.stack + [Bit(taken)], Logged(lines[p], w.core.s), 0);
  }

  /** Whether a file that reads without error is recorded depends on its shape alone. */
  lemma RecordedIffGuarded(lines: seq<Line>, macros: set<nat>, x: nat, env: Env, limit: nat)
    requires Read(lines, macros, env, limit).Ok?
    ensures Records(lines, macros, x, env, limit) <==> exists p, q :: Guarded(lines, x, p, q)
  {
    hide WatchRun;
    if exists p, q :: Guarded(lines, x, p, q) {
      var p, q :| Guarded(lines, x, p, q);
      GuardedIsRecorded(lines, x, p, q, macros, env, limit);
    } else if Records(lines, macros, x, env, limit) {
      RunShowsGuard(lines, Start(macros), env, limit);
    }
  }

  // ---- watching does not disturb the machine -----------------------------------

  lemma {:induction false} WatchRunIsCoreRun(lines: seq<Line>, w: Watch, env: Env, limit: nat)
    requires w.core.pos <= |lines|
    ensures var r, c := WatchRun(lines, w, env, limit), CoreRun(lines, w.core, env, limit);
            if r.Ok? then c == Ok(r.v.core) else c == Err
    decreases |lines| - w.core.pos
  {
    hide CoreStep;
    if w.core.pos < |lines| && WatchStep(lines, w, env, limit).Ok? {
      WatchRunIsCoreRun(lines, WatchStep(lines, w, env, limit).v, env, limit);
    }
  }

  /** Reading a well-nested file gives exactly what the recursive reading gives, or the
      error of a full stack exactly when its processed groups nest too deep. */
  lemma ReadIsMeaning(b: Block, macros: set<nat>, env: Env, limit: nat)
    requires WellFormed(b)
    ensures var r, s := Read(Flat(b), macros, env, limit), State(macros, [], []);
            if Live(b, s, env) <= limit then r.Ok? && r.v.core == Core(|Flat(b)|, [], Meaning(b, s, env)) else r == Err
  {
    WatchRunIsCoreRun(Flat(b), Start(macros), env, limit);
    MachineRefinesMeaning(b, State(macros, [], []), env, limit);
  }

  // ---- the code --------------------------------------------------------------

  class Preprocessor {
    const lines: seq<Line>
    const env: Env
    const limit: nat // IFDEF_STACK_SIZE
    var pos: nat // file->buf_ptr
    var stack: seq<bv2> // ifdef_stack
    var s: State
    var bof: bool // TOK_FLAG_BOF
    var ifndefMacro: Option<nat>
    var ifndefSaved: Option<nat>
    var endif: bool // TOK_FLAG_ENDIF

    constructor (lines: seq<Line>, macros: set<nat>, env: Env, limit: nat)
      ensures this.lines == lines && this.env == env && this.limit == limit && Now() == Start(macros)
    {
      this.lines, this.env, this.limit := lines, env, limit;
      pos, stack, s := 0, [], State(macros, [], []);
      bof, ifndefMacro, ifndefSaved, endif := true, None, None, false;
    }

    ghost function Now(): Watch
      reads this
    {
      Watch(Core(pos, stack, s), bof, ifndefMacro, ifndefSaved, endif)
    }

    /** preprocess_skip */
    method PreprocessSkip() returns (ok: bool)
      modifies this`pos
      ensures ok <==> Skip(lines, old(pos), 0).Ok?
      ensures ok ==> pos == Skip(lines, old(pos), 0).v
    {
      var a := 0;
      while pos < |lines|
        invariant a >= 0 && Skip(lines, old(pos), 0) == Skip(lines, pos, a)
        decreases |lines| - pos
      {
        var l := lines[pos];
        if a == 0 && (l == Else || IsElif(l) || l == Endif) {
          return true;
        }
        if IsIf(l) {
          a := a + 1;
        } else if l == Endif {
          a := a - 1;
        }
        pos := pos + 1;
      }
      ok := false;
    }

    /** The switch of preprocess(), up to test_skip: c says whether the group that
        begins here is processed; an #endif begins none. */
    method Judge(isBof: bool) returns (ok: bool, c: bool)
      requires pos < |lines| && !lines[pos].Active? && !lines[pos].Blank?
      requires bof ==> isBof
      modifies this`stack, this`s, this`bof, this`ifndefMacro, this`ifndefSaved, this`endif
      ensures var l, next := lines[pos], WatchStep(lines, old(Now()).(bof := isBof), env, limit);
              if !ok then next == Err
              else if c then next == Ok(Now().(core := Now().core.(pos := pos + 1)))
              else
                var t := Skip(lines, pos + 1, 0);
                if t.Ok? then next == Ok(Now().(core := Now().core.(pos := t.v))) else next == Err
      ensures !bof
    {
      hide Skip, Holds, Logged;
      var l, n := lines[pos], |stack|;
      ok, c := true, true;
      bof, endif := false, false;
      if IsIf(l) {
        if isBof && l.Ifndef? {
          ifndefMacro := Some(l.m);
        }
        c := Holds(l, s, env);
        s := Logged(l, s);
        if n >= limit {
          return false, c;
        }
        stack := stack + [Bit(c)];
      } else if n == 0 {
        return false, c;
      } else if l.Endif? {
        stack := stack[..n - 1];
        if ifndefMacro.Some? && stack == [] {
          ifndefSaved, ifndefMacro, endif := ifndefMacro, None, true;
        }
      } else {
        if l.Else? {
          if stack[n - 1] & 2 != 0 {
            return false, c;
          }
          stack := stack[n - 1 := stack[n - 1] ^ 3];
          c := stack[n - 1] & 1 != 0;
        } else {
          if stack[n - 1] > 1 {
            return false, c;
          }
          if stack[n - 1] == 1 {
            c := false;
          } else {
            c := Holds(l, s, env);
            s := Logged(l, s);
            stack := stack[n - 1 := Bit(c)];
          }
        }
        if n == 1 {
          ifndefMacro := None;
        }
      }
    }

    /** preprocess(): a directive, and those that end the groups skipped after it. */
    method Preprocess() returns (ok: bool)
      requires pos < |lines| && !lines[pos].Active? && !lines[pos].Blank?
      modifies this`pos, this`stack, this`s, this`bof, this`ifndefMacro, this`ifndefSaved, this`endif
      ensures ok ==> old(pos) < pos <= |lines| && WatchRun(lines, Now(), env, limit) == WatchRun(lines, old(Now()), env, limit)
      ensures !ok ==> WatchRun(lines, old(Now()), env, limit) == Err
    {
      hide WatchStep, WatchRun, Skip;
      var isBof := bof;
      while true
        invariant old(pos) <= pos < |lines| && !lines[pos].Active? && !lines[pos].Blank? && bof == isBof
        invariant WatchRun(lines, Now(), env, limit) == WatchRun(lines, old(Now()), env, limit)
        decreases |lines| - pos
      {
        ghost var before := Now();
        RunFails(lines, before, env, limit);
        var judged, c := Judge(isBof);
        if !judged {
          return false;
        }
        pos := pos + 1;
        if c {
          RunOne(lines, before, Now(), env, limit);
          return true;
        }
        var stopped := PreprocessSkip();
        if !stopped {
          return false;
        }
        RunOne(lines, before, Now(), env, limit);
        isBof := false;
      }
    }

    /** Reading the file to its end gives what Read says. */
    method ReadFile() returns (ok: bool)
      requires pos <= |lines|
      modifies this
      ensures var r := WatchRun(lines, old(Now()), env, limit);
              if ok then r == Ok(Now()) else r == Err
    {
      hide Skip, Go;
      while pos < |lines|
        invariant pos <= |lines| && WatchRun(lines, Now(), env, limit) == WatchRun(lines, old(Now()), env, limit)
        decreases |lines| - pos
      {
        var l := lines[pos];
        if l.Blank? {
          pos := pos + 1;
        } else if l.Active? {
          s := Act(l.k, s, env);
          bof, endif := false, false;
          pos := pos + 1;
        } else {
          ok := Preprocess();
          if !ok {
            return;
          }
        }
      }
      ok := stack == [];
    }
  }
}
