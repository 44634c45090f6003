/** Dependency files across two programs: gen_makedeps of the compiler writes
    them, dependencies of the build driver reads them back. */
module DepFile {
  import opened Wrappers

  // ---- characters ------------------------------------------------------------------

  predicate NewLine(c: char) { c == '\n' || c == '\r' }

  /** The compiler's is_space, which has no line feed. */
  predicate Blank(c: char) { c == ' ' || c == '\t' || c == 11 as char || c == 12 as char || c == '\r' }

  /** The driver's isspace. */
  predicate Space(c: char) { Blank(c) || c == '\n' }

  // ---- the writer --------------------------------------------------------------------

  function EscapeChar(c: char): (r: string)
    ensures 1 <= |r| <= 2
  {
    if Blank(c) || c == '#' then ['\\', c] else if c == '$' then "$$" else [c]
  }

  function Escape(s: string): (r: string)
    ensures |r| <= 2 * |s| && (s == "" <==> r == "")
  {
    if s == "" then "" else EscapeChar(s[0]) + Escape(s[1..])
  }

  /** The first occurrences, in order. */
  function Distinct(s: seq<string>): seq<string> {
    if s == [] then []
    else
      var n := |s| - 1;
      Distinct(s[..n]) + (if s[n] in s[..n] then [] else [s[n]])
  }

  function Lines(deps: seq<string>, nl: string): string {
    if deps == [] then "" else " \\" + nl + "  " + Escape(deps[0]) + Lines(deps[1..], nl)
  }

  /** The phony rules, one a name. */
  function Rules(deps: seq<string>, nl: string): string {
    if deps == [] then "" else Escape(deps[0]) + (":" + nl) + Rules(deps[1..], nl)
  }

  /** All but the first name get one. */
  function PhonyRules(deps: seq<string>, nl: string, phony: bool): string {
    if phony && deps != [] then Rules(deps[1..], nl) else ""
  }

  /** What follows the target's colon, up to the phony rules. */
  function Body(deps: seq<string>, nl: string): string { Lines(deps, nl) + nl }

  /** The end of a line, as the file holds it: translated in text mode or not. */
  predicate LineEnd(nl: string) { nl == "\n" || nl == "\r\n" }

  ghost function First(s: seq<string>, x: string): (i: nat)
    requires x in s
    ensures i < |s| && s[i] == x && x !in s[..i]
  {
    if s[0] == x then 0 else 1 + First(s[1..], x)
  }

  ghost predicate ByFirstMention(s: seq<string>, d: seq<string>) {
    && (forall x :: x in d ==> x in s)
    && forall i, j :: 0 <= i < j < |d| ==> First(s, d[i]) < First(s, d[j])
  }

  /** Every dependency once, ordered by first mention. */
  lemma {:induction false} DistinctMeaning(s: seq<string>)
    ensures forall x :: x in Distinct(s) <==> x in s
    ensures ByFirstMention(s, Distinct(s))
  {
    if s != [] {
      var n := |s| - 1;
      DistinctMeaning(s[..n]);
      assert s == s[..n] + [s[n]];
      var d, e := Distinct(s), Distinct(s[..n]);
      forall i, j | 0 <= i < j < |d| ensures First(s, d[i]) < First(s, d[j]) {
        assert d[i] == e[i] && e[i] in e;
        FirstInPrefix(s, n, d[i]);
        if j == |e| {
          FirstIsNew(s, n);
          assert d == e + [s[n]] && d[j] == s[n];
        } else {
          assert d[j] == e[j] && e[j] in e;
          FirstInPrefix(s, n, d[j]);
          assert First(s[..n], e[i]) < First(s[..n], e[j]);
        }
      }
    }
  }

  lemma FirstIsNew(s: seq<string>, n: nat)
    requires n < |s| && s[n] !in s[..n]
    ensures First(s, s[n]) == n
  {
    assert forall k :: 0 <= k < n ==> s[..n][k] == s[k];
  }

  lemma FirstInPrefix(s: seq<string>, n: nat, x: string)
    requires n <= |s| && x in s[..n]
    ensures First(s, x) == First(s[..n], x)
  {
    var i, j := First(s, x), First(s[..n], x);
    assert s[..n][j] == s[j];
  }

  /** escape_target_dep, in a buffer of 2 * |s| + 1 characters ended by a NUL. */
  method EscapeTargetDep(s: string) returns (res: array<char>, j: nat)
    ensures fresh(res) && res.Length == 2 * |s| + 1
    ensures j < res.Length && res[j] == '\0' && res[..j] == Escape(s)
  {
    res := new char[2 * |s| + 1];
    j := 0;
    for i := 0 to |s|
      invariant j <= 2 * i && res[..j] == Escape(s[..i])
    {
      EscapeSnoc(s, i);
      j := EscapeOne(res, j, s[i]);
    }
    assert s[..|s|] == s;
    res[j] := '\0';
  }

  /** One character with its escape. */
  method EscapeOne(res: array<char>, j0: nat, c: char) returns (j: nat)
    requires j0 + 2 <= res.Length
    modifies res
    ensures j <= j0 + 2 && res[..j] == old(res[..j0]) + EscapeChar(c)
  {
    j := j0;
    if Blank(c) || c == '#' {
      res[j] := '\\';
      j := j + 1;
    } else if c == '$' {
      res[j] := '$';
      j := j + 1;
    }
    res[j] := c;
    j := j + 1;
  }

  lemma EscapeSnoc(s: string, i: nat)
    requires i < |s|
    ensures Escape(s[..i + 1]) == Escape(s[..i]) + EscapeChar(s[i])
  {
    assert s[..i + 1] == s[..i] + [s[i]];
    EscapeAppend(s[..i], [s[i]]);
    assert Escape([s[i]]) == EscapeChar(s[i]) + "" == EscapeChar(s[i]);
  }

  /** The loop that keeps the first of equal dependencies. */
  method Targets(deps: seq<string>) returns (targets: seq<string>)
    ensures targets == Distinct(deps)
  {
    targets := [];
    for i := 0 to |deps|
      invariant targets == Distinct(deps[..i])
    {
      assert deps[..i + 1][..i] == deps[..i];
      var k := 0;
      while k < i && deps[i] != deps[k]
        invariant k <= i && forall j :: 0 <= j < k ==> deps[j] != deps[i]
      {
        k := k + 1;
      }
      assert k < i ==> deps[..i][k] == deps[i];
      if k == i {
        targets := targets + [deps[i]];
      }
    }
    assert deps[..|deps|] == deps;
  }

  /** gen_makedeps: the text of the file. */
  method GenMakedeps(target: string, deps: seq<string>, nl: string, phony: bool) returns (text: string)
    ensures text == Escape(target) + ":" + Body(Distinct(deps), nl) + PhonyRules(Distinct(deps), nl, phony)
  {
    hide Escape, Distinct;
    var targets := Targets(deps);
    var buf, end := EscapeTargetDep(target);
    text := buf[..end] + ":";
    ghost var head := text;
    assert targets[0..] == targets;
    for i := 0 to |targets|
      invariant text + Lines(targets[i..], nl) == head + Lines(targets, nl)
    {
      buf, end := EscapeTargetDep(targets[i]);
      assert targets[i..][1..] == targets[i + 1..];
      var line := " \\" + nl + "  " + buf[..end];
      Assoc(text, line, Lines(targets[i + 1..], nl));
      text := text + line;
    }
    assert targets[|targets|..] == [];
    assert text + "" == text;
    Assoc(head, Lines(targets, nl), nl);
    text := text + nl;
    if phony {
      var rules := GenPhony(targets, nl);
      text := text + rules;
    } else {
      assert text + "" == text;
    }
  }

  /** The loop over all names but the first. */
  method GenPhony(targets: seq<string>, nl: string) returns (text: string)
    ensures text == PhonyRules(targets, nl, true)
  {
    hide Escape;
    text := "";
    if targets == [] {
      return;
    }
    assert text + Rules(targets[1..], nl) == Rules(targets[1..], nl);
    for i := 1 to |targets|
      invariant text + Rules(targets[i..], nl) == Rules(targets[1..], nl)
    {
      var buf, end := EscapeTargetDep(targets[i]);
      assert targets[i..][1..] == targets[i + 1..];
      var rule := buf[..end] + (":" + nl);
      Assoc(text, rule, Rules(targets[i + 1..], nl));
      text := text + rule;
    }
    assert targets[|targets|..] == [] && text + "" == text;
  }

  lemma Assoc(a: string, b: string, c: string)
    ensures (a + b) + c == a + (b + c)
  {}

  // ---- the reader ------------------------------------------------------------------------

  /** The text after the first colon that whitespace follows. */
  function AfterSeparator(s: string): Option<string> {
    if s == "" then None
    else if s[0] == ':' && |s| > 1 && Space(s[1]) then Some(s[1..])
    else AfterSeparator(s[1..])
  }

  function SkipSpace(s: string): (r: string)
    ensures |r| <= |s| && (r == "" || !Space(r[0]))
  {
    if s != "" && Space(s[0]) then SkipSpace(s[1..]) else s
  }

  function SkipNewLine(s: string): (r: string)
    ensures |r| <= |s|
  {
    var t := if s != "" && s[0] == '\r' then s[1..] else s;
    if t != "" && t[0] == '\n' then t[1..] else t
  }

  predicate Continued(s: string) { |s| > 1 && s[0] == '\\' && NewLine(s[1]) }

  /** The escape at the front, if any, taken off. */
  function Unescape(s: string): (r: string)
    requires s != ""
    ensures r != "" && |r| <= |s|
  {
    var t := if s[0] == '\\' && |s| > 1 && (Space(s[1]) || s[1] == '#') then s[1..] else s;
    if t[0] == '$' && |t| > 1 && t[1] == '$' then t[1..] else t
  }

  /** One token, ended by whitespace, a continuation or the end of the text. */
  function Token(s: string): (r: (string, string))
    ensures |r.1| <= |s| && (s != "" && !Space(s[0]) ==> |r.1| < |s|)
  {
    if s == "" || Space(s[0]) then ("", s)
    else if Continued(s) then ("", SkipNewLine(s[1..]))
    else
      var t := Unescape(s);
      var (more, rest) := Token(t[1..]);
      ([t[0]] + more, rest)
  }

  function Tokens(s: string): seq<string>
    decreases |s|
  {
    var t := SkipSpace(s);
    if t == "" then []
    else
      var (token, rest) := Token(t);
      (if token == "" then [] else [token]) + Tokens(rest)
  }

  /** distinct: a name is added unless one like it is there. */
  function AddDistinct(l: seq<string>, s: string, same: (string, string) -> bool): seq<string> {
    if exists i :: 0 <= i < |l| && same(l[i], s) then l else l + [s]
  }

  /** The names made absolute and added one after another. */
  function Collect(l: seq<string>, ts: seq<string>, absolute: string -> string, same: (string, string) -> bool): seq<string>
    decreases |ts|
  {
    if ts == [] then l else Collect(AddDistinct(l, absolute(ts[0]), same), ts[1..], absolute, same)
  }

  method Distinguish(l: seq<string>, s: string, same: (string, string) -> bool) returns (r: seq<string>)
    ensures r == AddDistinct(l, s, same)
  {
    for i := 0 to |l|
      invariant forall j :: 0 <= j < i ==> !same(l[j], s)
    {
      if same(l[i], s) {
        return l;
      }
    }
    r := l + [s];
  }

  /** dependencies, for any way to make a name absolute and any comparison. */
  method Dependencies(l0: seq<string>, text: string, absolute: string -> string, same: (string, string) -> bool)
    returns (ok: bool, l: seq<string>)
    ensures ok <==> AfterSeparator(text).Some?
    ensures ok ==> l == Collect(l0, Tokens(AfterSeparator(text).value), absolute, same)
  {
    hide SkipSpace, Token, Tokens, Collect, AddDistinct;
    l := l0;
    var p := 0;
    assert text[0..] == text;
    while p < |text| && !(text[p] == ':' && p + 1 < |text| && Space(text[p + 1]))
      invariant p <= |text| && AfterSeparator(text[p..]) == AfterSeparator(text)
    {
      assert text[p..][1..] == text[p + 1..];
      p := p + 1;
    }
    ok := p < |text|;
    if !ok {
      return;
    }
    assert text[p..][1..] == text[p + 1..];
    p := p + 1;
    ghost var all := Collect(l0, Tokens(text[p..]), absolute, same);
    while p < |text|
      invariant p <= |text| && Collect(l, Tokens(text[p..]), absolute, same) == all
    {
      p := SkipSpaces(text, p);
      if p == |text| {
        break;
      }
      var token;
      ghost var start := p;
      token, p := ReadToken(text, p);
      TokensStep(text[start..]);
      if token != "" {
        CollectStep(l, token, Tokens(text[p..]), absolute, same);
        l := Distinguish(l, absolute(token), same);
      } else {
        assert [] + Tokens(text[p..]) == Tokens(text[p..]);
      }
    }
    TokensEnd();
    CollectEnd(l, absolute, same);
    assert text[p..] == "";
  }

  lemma CollectStep(l: seq<string>, t: string, ts: seq<string>, absolute: string -> string, same: (string, string) -> bool)
    ensures Collect(l, [t] + ts, absolute, same) == Collect(AddDistinct(l, absolute(t), same), ts, absolute, same)
  {
    assert ([t] + ts)[1..] == ts;
  }

  lemma CollectEnd(l: seq<string>, absolute: string -> string, same: (string, string) -> bool)
    ensures Collect(l, [], absolute, same) == l
  {}

  function Map(ts: seq<string>, f: string -> string): (r: seq<string>)
    ensures |r| == |ts| && forall i :: 0 <= i < |ts| ==> r[i] == f(ts[i])
  {
    seq(|ts|, i requires 0 <= i < |ts| => f(ts[i]))
  }

  ghost predicate Different(l: seq<string>, same: (string, string) -> bool) {
    forall i, j :: 0 <= i < j < |l| ==> !same(l[i], l[j])
  }

  /** Names that are all different, and different from those there, are all added. */
  lemma {:induction false} CollectDifferent(l: seq<string>, ts: seq<string>, absolute: string -> string, same: (string, string) -> bool)
    requires Different(l + Map(ts, absolute), same)
    ensures Collect(l, ts, absolute, same) == l + Map(ts, absolute)
    decreases |ts|
  {
    if ts == [] {
      assert l + Map(ts, absolute) == l;
    } else {
      var s, all := absolute(ts[0]), l + Map(ts, absolute);
      assert all[|l|] == s;
      forall i | 0 <= i < |l| ensures !same(l[i], s) {
        assert all[i] == l[i];
      }
      assert l + [s] + Map(ts[1..], absolute) == all;
      CollectDifferent(l + [s], ts[1..], absolute, same);
    }
  }

  /** No two names of the result are alike, and each name has one like it there. */
  lemma {:induction false} CollectMeaning(l: seq<string>, ts: seq<string>, absolute: string -> string, same: (string, string) -> bool)
    requires Different(l, same) && forall x :: same(x, x)
    ensures var r := Collect(l, ts, absolute, same);
            && Different(r, same) && l <= r
            && (forall t :: t in ts ==> exists x :: x in r && same(x, absolute(t)))
            && (forall x :: x in r ==> x in l || exists t :: t in ts && x == absolute(t))
    decreases |ts|
  {
    if ts != [] {
      var m := AddDistinct(l, absolute(ts[0]), same);
      assert exists x :: x in m && same(x, absolute(ts[0])) by {
        assert m == l + [absolute(ts[0])] || exists i :: 0 <= i < |l| && same(l[i], absolute(ts[0]));
        assert m == l + [absolute(ts[0])] ==> absolute(ts[0]) in m;
      }
      CollectMeaning(m, ts[1..], absolute, same);
      var r := Collect(l, ts, absolute, same);
      var x0 :| x0 in m && same(x0, absolute(ts[0]));
      assert x0 in r;
      forall t | t in ts ensures exists x :: x in r && same(x, absolute(t)) {
        if t != ts[0] {
          assert t in ts[1..];
        }
      }
      forall x | x in r ensures x in l || exists t :: t in ts && x == absolute(t) {
        if x in m && x !in l {
          assert x == absolute(ts[0]) && ts[0] in ts;
        } else if x !in m {
          var t :| t in ts[1..] && x == absolute(t);
          assert t in ts;
        }
      }
    }
  }

  lemma TokensEnd()
    ensures Tokens("") == []
  {}

  lemma TokensStep(s: string)
    requires s != "" && !Space(s[0])
    ensures Tokens(s) == (if Token(s).0 == "" then [] else [Token(s).0]) + Tokens(Token(s).1)
  {}

  method SkipSpaces(text: string, p0: nat) returns (p: nat)
    requires p0 <= |text|
    ensures p0 <= p <= |text| && text[p..] == SkipSpace(text[p0..]) && Tokens(text[p..]) == Tokens(text[p0..])
    ensures p < |text| ==> !Space(text[p])
  {
    p := p0;
    while p < |text| && Space(text[p])
      invariant p <= |text| && SkipSpace(text[p..]) == SkipSpace(text[p0..])
    {
      assert text[p..][1..] == text[p + 1..];
      p := p + 1;
    }
  }

  /** The inner loop. It always moves, so the driver's extra step after a token
      that took no characters is never taken. */
  method ReadToken(text: string, start: nat) returns (token: string, p: nat)
    requires start < |text| && !Space(text[start])
    ensures start < p <= |text| && (token, text[p..]) == Token(text[start..])
  {
    hide Unescape, Continued, SkipNewLine;
    token, p := "", start;
    ghost var all := Token(text[start..]);
    assert "" + all.0 == all.0;
    while p < |text| && !Space(text[p])
      invariant start <= p <= |text| && (token + Token(text[p..]).0, Token(text[p..]).1) == all
      invariant p == start ==> p < |text| && !Space(text[p])
    {
      ghost var s := text[p..];
      var stop;
      stop, p := Continuation(text, p);
      if stop {
        assert token + "" == token;
        return;
      }
      p := TakeEscape(text, p);
      ghost var t := text[p..];
      assert t[1..] == text[p + 1..];
      assert token + ([t[0]] + Token(text[p + 1..]).0) == (token + [t[0]]) + Token(text[p + 1..]).0;
      token := token + [text[p]];
      p := p + 1;
    }
    assert token + "" == token;
  }

  method Continuation(text: string, p0: nat) returns (stop: bool, p: nat)
    requires p0 < |text|
    ensures p0 <= p <= |text| && stop == Continued(text[p0..])
    ensures if stop then p0 < p && text[p..] == SkipNewLine(text[p0..][1..]) else p == p0
  {
    p := p0;
    stop := text[p] == '\\' && p + 1 < |text| && NewLine(text[p + 1]);
    if stop {
      p := p + 1;
      assert text[p0..][1..] == text[p..];
      if text[p] == '\r' {
        assert text[p..][1..] == text[p + 1..];
        p := p + 1;
      }
      if p < |text| && text[p] == '\n' {
        assert text[p..][1..] == text[p + 1..];
        p := p + 1;
      }
    }
  }

  method TakeEscape(text: string, p0: nat) returns (p: nat)
    requires p0 < |text|
    ensures p0 <= p < |text| && text[p..] == Unescape(text[p0..])
  {
    p := p0;
    if text[p] == '\\' && p + 1 < |text| && (Space(text[p + 1]) || text[p + 1] == '#') {
      assert text[p..][1..] == text[p + 1..];
      p := p + 1;
    }
    if text[p] == '$' && p + 1 < |text| && text[p + 1] == '$' {
      assert text[p..][1..] == text[p + 1..];
      p := p + 1;
    }
  }

  // ---- the separator ---------------------------------------------------------------------

  /** A colon that the escaped target itself has before whitespace. */
  ghost predicate ColonLine(s: string) {
    exists i :: 0 <= i < |s| - 1 && s[i] == ':' && s[i + 1] == '\n'
  }

  /** Past the escaped target, whatever follows it: either nothing in the target
      looks like the separator, or something is left of it. */
  lemma {:induction false} SeparatorInTarget(s: string, tail: string)
    requires tail != "" && !Space(tail[0])
    ensures !ColonLine(s) ==> AfterSeparator(Escape(s) + tail) == AfterSeparator(tail)
    ensures ColonLine(s) ==> AfterSeparator(Escape(s) + tail).Some? && |AfterSeparator(Escape(s) + tail).value| > |tail|
  {
    hide AfterSeparator, ColonLine;
    NoColonLine();
    if s == "" {
      assert "" + tail == tail;
    } else {
      var c, more := s[0], s[1..];
      SeparatorInTarget(more, tail);
      var rest := Escape(more) + tail;
      assert Escape(s) + tail == EscapeChar(c) + rest;
      ColonLineStep(s);
      FirstOfEscaped(more, tail);
      if c == ':' {
        SeparatorColon(rest);
      } else {
        SeparatorSkips(EscapeChar(c), rest);
      }
    }
  }

  /** Escaped text starts with whitespace only where the text starts with a line feed. */
  lemma FirstOfEscaped(s: string, tail: string)
    requires tail != "" && !Space(tail[0])
    ensures var r := Escape(s) + tail; r != "" && (Space(r[0]) <==> s != "" && s[0] == '\n')
  {
    assert s != "" ==> (Escape(s) + tail)[0] == EscapeChar(s[0])[0];
  }

  lemma SeparatorColon(rest: string)
    requires rest != ""
    ensures AfterSeparator([':'] + rest) == if Space(rest[0]) then Some(rest) else AfterSeparator(rest)
  {
    assert ([':'] + rest)[1..] == rest;
  }

  lemma NoColonLine()
    ensures !ColonLine("")
  {}

  lemma ColonLineStep(s: string)
    requires s != ""
    ensures ColonLine(s) <==> ColonLine(s[1..]) || (s[0] == ':' && |s| > 1 && s[1] == '\n')
  {
    var t := s[1..];
    if ColonLine(t) {
      var i :| 0 <= i < |t| - 1 && t[i] == ':' && t[i + 1] == '\n';
      assert s[i + 1] == ':' && s[i + 2] == '\n';
    }
    if ColonLine(s) {
      var i :| 0 <= i < |s| - 1 && s[i] == ':' && s[i + 1] == '\n';
      if i > 0 {
        assert t[i - 1] == ':' && t[i] == '\n';
      }
    }
  }

  lemma SeparatorSkips(a: string, rest: string)
    requires 1 <= |a| <= 2 && ':' !in a
    ensures AfterSeparator(a + rest) == AfterSeparator(rest)
  {
    assert (a + rest)[1..] == a[1..] + rest;
    assert |a| == 1 ==> a[1..] + rest == rest;
    assert |a| == 2 ==> (a[1..] + rest)[1..] == rest;
  }

  /** The first colon followed by whitespace is the one after the target exactly
      when the target itself has no colon at the end of a line. */
  lemma SeparatorIsReal(target: string, deps: seq<string>, nl: string)
    requires LineEnd(nl)
    ensures AfterSeparator(Escape(target) + ":" + Body(deps, nl)) == Some(Body(deps, nl)) <==> !ColonLine(target)
  {
    var tail := [':'] + Body(deps, nl);
    assert Escape(target) + ":" + Body(deps, nl) == Escape(target) + tail;
    SeparatorInTarget(target, tail);
    assert tail[1..] == Body(deps, nl);
    assert deps == [] ==> Body(deps, nl) == nl;
  }

  // ---- the tokens -------------------------------------------------------------------------

  /** What a name must be to come back: not empty, one line, no backslash last. */
  predicate Plain(s: string) {
    s != "" && '\n' !in s && '\r' !in s && s[|s| - 1] != '\\'
  }

  /** The escaped name adds exactly its characters to the token being read. */
  lemma {:induction false} TokenOfEscaped(x: string, y: string)
    requires '\n' !in x && '\r' !in x
    requires x != "" && x[|x| - 1] == '\\' ==> y != "" && !Space(y[0]) && y[0] != '#'
    ensures Token(Escape(x) + y) == (x + Token(y).0, Token(y).1)
  {
    hide Token;
    if x == "" {
      assert "" + y == y && "" + Token(y).0 == Token(y).0;
    } else {
      var c, more := x[0], x[1..];
      assert forall d :: d in more ==> d in x;
      TokenOfEscaped(more, y);
      var rest := Escape(more) + y;
      Assoc(EscapeChar(c), Escape(more), y);
      assert more != "" ==> rest[0] == EscapeChar(more[0])[0];
      TokenOfChar(c, rest);
      assert [c] + (more + Token(y).0) == x + Token(y).0;
    }
  }

  lemma TokenOfChar(c: char, rest: string)
    requires !NewLine(c) && (c == '\\' ==> rest != "" && !Space(rest[0]) && rest[0] != '#')
    ensures Token(EscapeChar(c) + rest) == ([c] + Token(rest).0, Token(rest).1)
  {
    UnescapeEscaped(c, rest);
    hide Unescape, EscapeChar, Continued;
    assert ([c] + rest)[1..] == rest;
  }

  lemma UnescapeEscaped(c: char, rest: string)
    requires !NewLine(c) && (c == '\\' ==> rest != "" && !Space(rest[0]) && rest[0] != '#')
    ensures var s := EscapeChar(c) + rest;
            !Space(s[0]) && !Continued(s) && Unescape(s) == [c] + rest
  {
    var s := EscapeChar(c) + rest;
    assert Blank(c) || c == '#' || c == '$' ==> s[1..] == [c] + rest;
  }

  /** Which characters the writer escapes, by their codes. */
  lemma EscapesExactly(c: char)
    ensures Escape([c]) == if c as int in {9, 11, 12, 13, 32} || c == '#' then ['\\', c] else if c == '$' then "$$" else [c]
  {
    assert [c][1..] == "" && Escape("") == "";
  }

  /** Nothing that either program treats in a special way. */
  predicate Bare(a: string) { forall c :: c in a ==> c as int > 32 && c != '\\' && c != '#' && c != '$' }

  /** Which characters the reader separates at, by their codes. */
  lemma SeparatesAt(a: string, c: char, b: string)
    requires a != "" && b != "" && Bare(a) && Bare(b) && c as int in {9, 10, 11, 12, 13, 32}
    ensures Tokens(a + ([c] + b)) == [a, b]
  {
    hide Tokens, Token, Bare;
    BareIsItself(a);
    BareIsItself(b);
    TokenOfEscaped(b, "");
    assert b + "" == b && Token("") == ("", "") by { TokenNone(); }
    TokensStep(b);
    TokensEnd();
    assert [b] + [] == [b];
    TokenOfEscaped(a, [c] + b);
    TokenBlank([c] + b);
    assert a + "" == a;
    TokensStep(a + ([c] + b));
    TokensSkip([c], b);
  }

  lemma TokenNone()
    ensures Token("") == ("", "")
  {}

  lemma TokenBlank(s: string)
    requires s != "" && Space(s[0])
    ensures Token(s) == ("", s)
  {}

  lemma {:induction false} BareIsItself(a: string)
    requires Bare(a)
    ensures Escape(a) == a && '\n' !in a && '\r' !in a && (a != "" ==> a[|a| - 1] != '\\' && !Space(a[0]))
  {
    hide Bare;
    if a != "" {
      BareParts(a);
      BareIsItself(a[1..]);
      assert [a[0]] + a[1..] == a;
    }
  }

  lemma BareParts(a: string)
    requires Bare(a) && a != ""
    ensures Bare(a[1..]) && EscapeChar(a[0]) == [a[0]] && !Space(a[0]) && a[|a| - 1] != '\\' && '\n' !in a && '\r' !in a
  {
    assert a[0] in a && a[|a| - 1] in a && forall c :: c in a[1..] ==> c in a;
  }

  /** The whitespace, continuation and indent before a name. */
  lemma TokensOfLine(nl: string, x: string)
    requires LineEnd(nl)
    ensures Tokens(" \\" + nl + "  " + x) == Tokens(x)
  {
    hide Tokens, Token;
    var cont := "\\" + (nl + ("  " + x));
    assert " \\" + nl + "  " + x == " " + cont;
    TokensSkip(" ", cont);
    TokenOfContinuation(nl, "  " + x);
    TokensStep(cont);
    assert [] + Tokens("  " + x) == Tokens("  " + x);
    assert "  " + x == " " + (" " + x);
    TokensSkip(" ", " " + x);
    TokensSkip(" ", x);
  }

  lemma TokenOfContinuation(nl: string, x: string)
    requires LineEnd(nl)
    ensures Token("\\" + (nl + x)) == ("", x)
  {
    assert ("\\" + (nl + x))[1..] == nl + x;
    if nl == "\n" {
      assert (nl + x)[1..] == x;
    } else {
      assert (nl + x)[1..] == "\n" + x && ("\n" + x)[1..] == x;
    }
  }

  lemma TokensSkip(blank: string, s: string)
    requires |blank| == 1 && Space(blank[0])
    ensures Tokens(blank + s) == Tokens(s)
  {
    assert (blank + s)[1..] == s;
  }

  lemma EscapedNotSpace(d: string, tail: string)
    requires d != "" && d[0] != '\n'
    ensures var r := Escape(d) + tail; r != "" && !Space(r[0])
  {
    assert (Escape(d) + tail)[0] == EscapeChar(d[0])[0];
  }

  /** A plain name, read where whitespace follows it. */
  lemma TokensOfName(d: string, tail: string)
    requires Plain(d) && tail != "" && Space(tail[0])
    ensures Tokens(Escape(d) + tail) == [d] + Tokens(tail)
  {
    hide Tokens;
    TokenOfEscaped(d, tail);
    assert Token(tail) == ("", tail) && d + "" == d;
    EscapedNotSpace(d, tail);
    TokensStep(Escape(d) + tail);
  }

  /** A name that ends in a backslash is never read back as itself. */
  lemma TokensOfBackslash(d: string, tail: string)
    requires d != "" && '\n' !in d && '\r' !in d && d[|d| - 1] == '\\'
    requires tail != "" && Space(tail[0]) && (NewLine(tail[0]) ==> NoBackslash(Tokens(SkipNewLine(tail))))
    ensures var r := Tokens(Escape(d) + tail); r == [] || r[0] != d
  {
    hide Tokens, Token, Escape, EscapeChar;
    var x := d[..|d| - 1];
    assert d == x + "\\";
    EscapeAppend(x, "\\");
    EscapeBackslash();
    Assoc(Escape(x), "\\", tail);
    assert Escape(d) + tail == Escape(x) + ("\\" + tail);
    TokenOfEscaped(x, "\\" + tail);
    LoneBackslash(tail);
    EscapedNotSpace(d, tail);
    TokensStep(Escape(d) + tail);
    TokensEnd();
    if NewLine(tail[0]) {
      assert Token(Escape(d) + tail) == (x, SkipNewLine(tail)) by { assert x + "" == x; }
      assert d != x;
    } else {
      assert Token(Escape(d) + tail).0[|x|] == tail[0];
    }
  }

  /** The first name, if any, is not a lone backslash. */
  predicate NoBackslash(ts: seq<string>) { ts == [] || ts[0] != "\\" }

  lemma LoneBackslash(tail: string)
    requires tail != "" && Space(tail[0])
    ensures NewLine(tail[0]) ==> Token("\\" + tail) == ("", SkipNewLine(tail))
    ensures !NewLine(tail[0]) ==> Token("\\" + tail).0 != "" && Token("\\" + tail).0[0] == tail[0]
  {
    assert ("\\" + tail)[1..] == tail;
  }

  lemma {:induction false} EscapeAppend(a: string, b: string)
    ensures Escape(a + b) == Escape(a) + Escape(b)
  {
    if a == "" {
      assert a + b == b;
    } else {
      assert (a + b)[1..] == a[1..] + b;
      EscapeAppend(a[1..], b);
    }
  }

  lemma EscapeBackslash()
    ensures Escape("\\") == "\\"
  {}

  /** No token is empty or holds a line break. */
  lemma {:induction false} TokensAreLines(s: string)
    ensures forall t :: t in Tokens(s) ==> t != "" && '\n' !in t && '\r' !in t
    decreases |s|
  {
    var t := SkipSpace(s);
    if t != "" {
      TokenIsLine(t);
      TokensAreLines(Token(t).1);
    }
  }

  lemma {:induction false} TokenIsLine(s: string)
    ensures '\n' !in Token(s).0 && '\r' !in Token(s).0
    decreases |s|
  {
    if s != "" && !Space(s[0]) && !Continued(s) {
      TokenIsLine(Unescape(s)[1..]);
    }
  }

  /** The names are read in order, whatever follows the body, exactly when all are plain. */
  lemma {:induction false} TokensOfBody(deps: seq<string>, nl: string, r: string)
    requires LineEnd(nl) && NoBackslash(Tokens(r))
    ensures deps <= Tokens(Body(deps, nl) + r) <==> forall d :: d in deps ==> Plain(d)
    ensures (forall d :: d in deps ==> Plain(d)) ==> Tokens(Body(deps, nl) + r) == deps + Tokens(nl + r)
  {
    hide Tokens, Escape, Token, Plain, SkipNewLine;
    if deps == [] {
      assert Body(deps, nl) == nl;
    } else {
      var d, more := deps[0], deps[1..];
      var tail := Body(more, nl) + r;
      assert deps == [d] + more;
      TokensOfFirst(d, more, nl, r);
      TokensAreLines(Body(deps, nl) + r);
      if Plain(d) {
        TokensOfName(d, tail);
        TokensOfBody(more, nl, r);
        assert [d] + (more + Tokens(nl + r)) == deps + Tokens(nl + r);
        assert ([d] + Tokens(tail))[1..] == Tokens(tail);
      } else {
        assert d in deps;
        var all := Tokens(Body(deps, nl) + r);
        assert deps <= all ==> all[0] == d && d in all;
        NotPlain(d);
        if d != "" && '\n' !in d && '\r' !in d {
          TokensOfBackslash(d, tail);
        }
      }
    }
  }

  lemma NotPlain(d: string)
    ensures !Plain(d) ==> d == "" || '\n' in d || '\r' in d || d[|d| - 1] == '\\'
  {}

  lemma TokensOfFirst(d: string, more: seq<string>, nl: string, r: string)
    requires LineEnd(nl)
    ensures var tail := Body(more, nl) + r;
            && Tokens(Body([d] + more, nl) + r) == Tokens(Escape(d) + tail)
            && tail != "" && Space(tail[0]) && (NewLine(tail[0]) ==> SkipNewLine(tail) == r)
  {
    hide Tokens, Escape;
    var deps := [d] + more;
    var tail := Body(more, nl) + r;
    assert deps[1..] == more;
    assert Body(deps, nl) + r == " \\" + nl + "  " + (Escape(d) + tail);
    TokensOfLine(nl, Escape(d) + tail);
    if more == [] {
      assert tail == nl + r;
      assert nl == "\r\n" ==> tail[1..] == "\n" + r && tail[2..] == r;
      assert nl == "\n" ==> tail[1..] == r;
    }
  }

  lemma TokensOfEnd(nl: string)
    requires LineEnd(nl)
    ensures Tokens(nl) == []
  {
    TokensEnd();
    if nl == "\n" {
      assert nl == "\n" + "";
      TokensSkip("\n", "");
    } else {
      assert nl == "\r" + ("\n" + "");
      TokensSkip("\r", "\n" + "");
      TokensSkip("\n", "");
    }
  }

  /** A phony rule is read as one more name, its colon included. */
  lemma {:induction false} TokensOfRules(deps: seq<string>, nl: string)
    requires LineEnd(nl) && forall d :: d in deps ==> Plain(d)
    ensures Tokens(nl + Rules(deps, nl)) == Map(deps, d => d + ":")
  {
    hide Tokens, Escape, Token;
    TokensOfNewLine(nl, Rules(deps, nl));
    if deps == [] {
      TokensEnd();
    } else {
      var d, more := deps[0], deps[1..];
      assert d in deps;
      TokensOfRule(deps, nl);
      TokensOfRules(more, nl);
      assert Map(deps, d => d + ":") == [d + ":"] + Map(more, d => d + ":");
    }
  }

  lemma TokensOfRule(deps: seq<string>, nl: string)
    requires LineEnd(nl) && deps != [] && deps[0] != "" && '\n' !in deps[0] && '\r' !in deps[0]
    ensures Tokens(Rules(deps, nl)) == [deps[0] + ":"] + Tokens(nl + Rules(deps[1..], nl))
  {
    hide Tokens, Escape, Token;
    var d, after := deps[0], nl + Rules(deps[1..], nl);
    assert Rules(deps, nl) == Escape(d) + (":" + after);
    TokenOfEscaped(d, ":" + after);
    ColonToken(after);
    EscapedNotSpace(d, ":" + after);
    TokensStep(Rules(deps, nl));
  }

  lemma RulesNoBackslash(deps: seq<string>, nl: string)
    requires LineEnd(nl) && forall d :: d in deps ==> d != "" && '\n' !in d && '\r' !in d
    ensures NoBackslash(Tokens(Rules(deps, nl)))
  {
    hide Tokens;
    if deps == [] {
      TokensEnd();
    } else {
      assert deps[0] in deps;
      TokensOfRule(deps, nl);
      assert (deps[0] + ":")[|deps[0]|] == ':';
    }
  }

  lemma ColonToken(after: string)
    requires after != "" && Space(after[0])
    ensures Token(":" + after) == (":", after)
  {
    assert (":" + after)[1..] == after;
    assert Token(after) == ("", after) && Unescape(":" + after) == ":" + after;
    assert [':'] + "" == ":";
  }

  lemma TokensOfNewLine(nl: string, x: string)
    requires LineEnd(nl)
    ensures Tokens(nl + x) == Tokens(x)
  {
    hide Tokens;
    if nl == "\n" {
      TokensSkip("\n", x);
    } else {
      assert nl + x == "\r" + ("\n" + x);
      TokensSkip("\r", "\n" + x);
      TokensSkip("\n", x);
    }
  }

  /** The names a reader finds: each dependency once in order of first mention, and
      behind them those with a phony rule once more, a colon added. */
  function Listed(d: seq<string>, phony: bool): seq<string> {
    d + if phony && d != [] then Map(d[1..], x => x + ":") else []
  }

  /** The file of one program is what the other should read exactly when every
      name is plain. */
  lemma RoundTrip(target: string, deps: seq<string>, nl: string, phony: bool)
    requires LineEnd(nl) && !ColonLine(target)
    ensures var d := Distinct(deps);
            var file := AfterSeparator(Escape(target) + ":" + Body(d, nl) + PhonyRules(d, nl, phony));
            file.Some? && (Tokens(file.value) == Listed(d, phony) <==> forall x :: x in deps ==> Plain(x))
  {
    hide Tokens;
    var d := Distinct(deps);
    var rules := PhonyRules(d, nl, phony);
    Assoc(Escape(target) + ":", Body(d, nl), rules);
    SeparatorBefore(target, Body(d, nl) + rules, d, nl);
    DistinctMeaning(deps);
    NamesReadBack(d, nl, phony);
  }

  lemma NamesReadBack(d: seq<string>, nl: string, phony: bool)
    requires LineEnd(nl)
    ensures Tokens(Body(d, nl) + PhonyRules(d, nl, phony)) == Listed(d, phony) <==> forall x :: x in d ==> Plain(x)
  {
    hide Tokens, Map;
    var rules := PhonyRules(d, nl, phony);
    TokensAreLines(Body(d, nl) + rules);
    if forall x :: x in d ==> x != "" && '\n' !in x && '\r' !in x {
      TokensEnd();
      if d != [] {
        assert forall x :: x in d[1..] ==> x in d;
        RulesNoBackslash(d[1..], nl);
      }
      TokensOfBody(d, nl, rules);
      if phony && d != [] && forall x :: x in d ==> Plain(x) {
        TokensOfRules(d[1..], nl);
      } else {
        TokensOfEnd(nl);
        assert nl + "" == nl;
      }
    } else {
      var x :| x in d && !(x != "" && '\n' !in x && '\r' !in x);
      assert x in Listed(d, phony);
    }
  }

  /** The separator is found whatever the body is, as long as it begins with a blank. */
  lemma SeparatorBefore(target: string, body: string, deps: seq<string>, nl: string)
    requires LineEnd(nl) && !ColonLine(target) && Body(deps, nl) <= body
    ensures AfterSeparator(Escape(target) + ":" + body) == Some(body)
  {
    var tail := [':'] + body;
    assert Escape(target) + ":" + body == Escape(target) + tail;
    SeparatorInTarget(target, tail);
    assert tail[1..] == body;
    assert Space(Body(deps, nl)[0]);
  }

  /** Across both programs: plain names that stay different when made absolute, those of
      the phony rules with them, are read as the list that was written, made absolute. */
  lemma DependenciesReadBack(target: string, deps: seq<string>, nl: string, phony: bool, absolute: string -> string,
                             same: (string, string) -> bool)
    requires LineEnd(nl) && !ColonLine(target) && forall x :: x in deps ==> Plain(x)
    requires Different(Map(Listed(Distinct(deps), phony), absolute), same)
    ensures var d := Distinct(deps);
            var file := AfterSeparator(Escape(target) + ":" + Body(d, nl) + PhonyRules(d, nl, phony));
            file.Some? && Collect([], Tokens(file.value), absolute, same) == Map(Listed(d, phony), absolute)
  {
    hide Tokens, Collect, Listed;
    RoundTrip(target, deps, nl, phony);
    var all := Listed(Distinct(deps), phony);
    assert [] + Map(all, absolute) == Map(all, absolute);
    CollectDifferent([], all, absolute, same);
  }
}
