/** Argument lists as text: the two Windows quoters against the C runtime's rules
    for splitting a command line, and the driver's response files against the
    compiler's own splitting of them. */
module Quoting {
  import opened Wrappers

  // ---- the reader -------------------------------------------------------------------

  predicate IsBlank(c: char) { c == ' ' || c == '\t' }

  /** The number of backslashes at the front. */
  function Run(s: string): (n: nat)
    ensures n <= |s| && (forall i :: 0 <= i < n ==> s[i] == '\\') && (n < |s| ==> s[n] != '\\')
  {
    if s == "" || s[0] != '\\' then 0 else 1 + Run(s[1..])
  }

  function Slashes(n: nat): (r: string)
    ensures |r| == n && forall i :: 0 <= i < n ==> r[i] == '\\'
  {
    seq(n, _ => '\\')
  }

  /** Splitting a command line. Arguments are separated by blanks outside quotes.
      2n backslashes before a quote stand for n and leave the quote a delimiter,
      2n + 1 stand for n and a literal quote, other backslashes for themselves; a
      doubled quote inside quotes is a literal one. */
  function Split(s: string, started: bool, quoted: bool, arg: string): seq<string>
    decreases |s|
  {
    if s == "" then (if started then [arg] else [])
    else if s[0] == '\\' then
      var n := Run(s);
      var rest := s[n..];
      if rest != "" && rest[0] == '"' then
        if n % 2 == 0 then Split(rest, true, quoted, arg + Slashes(n / 2))
        else Split(rest[1..], true, quoted, arg + Slashes(n / 2) + ['"'])
      else Split(rest, true, quoted, arg + Slashes(n))
    else if s[0] == '"' then
      if quoted && |s| > 1 && s[1] == '"' then Split(s[2..], true, true, arg + ['"'])
      else Split(s[1..], true, !quoted, arg)
    else if IsBlank(s[0]) && !quoted then
      (if started then [arg] else []) + Split(s[1..], false, false, "")
    else Split(s[1..], true, quoted, arg + [s[0]])
  }

  /** dynarray_split of a response file: arguments are separated by control
      characters and blanks outside quotes, a backslash stands before a quote or
      another backslash, any other quote opens or closes. */
  function ListSplit(s: string, started: bool, quoted: bool, arg: string): seq<string>
    decreases |s|
  {
    if s == "" then (if started then [arg] else [])
    else if s[0] == '\\' && |s| > 1 && (s[1] == '"' || s[1] == '\\') then ListSplit(s[2..], true, quoted, arg + [s[1]])
    else if s[0] == '"' then ListSplit(s[1..], true, !quoted, arg)
    else if s[0] <= ' ' && !quoted then (if started then [arg] else []) + ListSplit(s[1..], false, false, "")
    else ListSplit(s[1..], true, quoted, arg + [s[0]])
  }

  /** dynarray_split with a separator: blanks before an argument go, all else up to the
      next separator is the argument. */
  function FieldSplit(s: string, sep: char, started: bool, arg: string): seq<string> {
    if s == "" then (if started then [arg] else [])
    else if s[0] <= ' ' && !started then FieldSplit(s[1..], sep, false, "")
    else if s[0] == sep then [arg] + FieldSplit(s[1..], sep, false, "")
    else FieldSplit(s[1..], sep, true, arg + [s[0]])
  }

  /** The two modes of dynarray_split. */
  function Arguments(s: string, sep: Option<char>, started: bool, quoted: bool, arg: string): seq<string> {
    match sep
    case None => ListSplit(s, started, quoted, arg)
    case Some(c) => FieldSplit(s, c, started, arg)
  }

  /** A way of reading: the text, whether an argument is open, whether inside
      quotes, and the argument so far. */
  type Reader = (string, bool, bool, string) -> seq<string>

  /** An open argument ends at the end of the text and at a blank. */
  ghost predicate Separates(split: Reader) {
    && (forall started: bool, arg: string :: split("", started, false, arg) == if started then [arg] else [])
    && (forall tail: string, arg: string :: split(" " + tail, true, false, arg) == [arg] + split(tail, false, false, ""))
  }

  lemma BothSeparate()
    ensures Separates(Split) && Separates(ListSplit)
  {
    forall tail: string, arg: string
      ensures Split(" " + tail, true, false, arg) == [arg] + Split(tail, false, false, "")
      ensures ListSplit(" " + tail, true, false, arg) == [arg] + ListSplit(tail, false, false, "")
    {
      assert (" " + tail)[1..] == tail;
    }
  }

  // ---- the text both quoters write ---------------------------------------------------

  /** Quotes escaped, the backslashes before them doubled; those at the end are
      doubled when a closing quote will follow. */
  function Escaped(s: string, closing: bool): (r: string)
    decreases |s|
  {
    var n := Run(s);
    var rest := s[n..];
    if rest == "" then Slashes(if closing then 2 * n else n)
    else Slashes(if rest[0] == '"' then 2 * n + 1 else n) + ([rest[0]] + Escaped(rest[1..], closing))
  }

  lemma RunOfSlashes(n: nat, tail: string)
    requires tail == "" || tail[0] != '\\'
    ensures Run(Slashes(n) + tail) == n
    ensures (Slashes(n) + tail)[n..] == tail
  {
    if n > 0 {
      assert (Slashes(n) + tail)[1..] == Slashes(n - 1) + tail;
      RunOfSlashes(n - 1, tail);
    }
  }

  /** Backslashes not before a quote. */
  lemma SplitSlashes(n: nat, tail: string, started: bool, quoted: bool, arg: string)
    requires tail == "" || (tail[0] != '\\' && tail[0] != '"')
    ensures Split(Slashes(n) + tail, started, quoted, arg) == Split(tail, started || n > 0, quoted, arg + Slashes(n))
  {
    RunOfSlashes(n, tail);
    if n == 0 {
      assert Slashes(0) + tail == tail && arg + Slashes(0) == arg;
    }
  }

  /** Backslashes before a quote: an even number, and an odd one. */
  lemma SplitEscape(n: nat, tail: string, started: bool, quoted: bool, arg: string)
    requires tail != "" && tail[0] == '"'
    ensures Split(Slashes(2 * n) + tail, started, quoted, arg) == Split(tail, started || n > 0, quoted, arg + Slashes(n))
  {
    if n == 0 {
      assert Slashes(0) + tail == tail && arg + Slashes(0) == arg;
    } else {
      hide Run, Slashes;
      RunOfSlashes(2 * n, tail);
    }
  }

  lemma SplitEscapeOdd(n: nat, tail: string, started: bool, quoted: bool, arg: string)
    requires tail != "" && tail[0] == '"'
    ensures Split(Slashes(2 * n + 1) + tail, started, quoted, arg) == Split(tail[1..], true, quoted, arg + Slashes(n) + ['"'])
  {
    hide Run, Slashes;
    RunOfSlashes(2 * n + 1, tail);
  }

  lemma SplitPlain(c: char, tail: string, started: bool, quoted: bool, arg: string)
    requires c != '\\' && c != '"' && (quoted || !IsBlank(c))
    ensures Split([c] + tail, started, quoted, arg) == Split(tail, true, quoted, arg + [c])
  {
    assert ([c] + tail)[1..] == tail;
  }

  /** Escaped text, by its first run of backslashes. */
  lemma EscapedForm(n: nat, rest: string, closing: bool)
    requires rest == "" || rest[0] != '\\'
    ensures Escaped(Slashes(n) + rest, closing) ==
            if rest == "" then Slashes(if closing then 2 * n else n)
            else Slashes(if rest[0] == '"' then 2 * n + 1 else n) + ([rest[0]] + Escaped(rest[1..], closing))
  {
    RunOfSlashes(n, rest);
  }

  lemma ByRun(s: string) returns (n: nat, rest: string)
    ensures s == Slashes(n) + rest && (rest == "" || rest[0] != '\\') && |rest| <= |s|
  {
    n, rest := Run(s), s[Run(s)..];
  }

  lemma Assoc(a: string, b: string, c: string)
    ensures (a + b) + c == a + (b + c)
  {}

  /** A run, then a character to be escaped or not, read back. */
  lemma SplitRun(n: nat, c: char, after: string, started: bool, quoted: bool, arg: string)
    requires c != '\\' && (quoted || !IsBlank(c))
    ensures Split(Slashes(if c == '"' then 2 * n + 1 else n) + ([c] + after), started, quoted, arg)
            == Split(after, true, quoted, arg + (Slashes(n) + [c]))
  {
    hide Split;
    Assoc(arg, Slashes(n), [c]);
    assert ([c] + after)[1..] == after;
    if c == '"' {
      SplitEscapeOdd(n, [c] + after, started, quoted, arg);
    } else {
      SplitSlashes(n, [c] + after, started, quoted, arg);
      SplitPlain(c, after, started || n > 0, quoted, arg + Slashes(n));
    }
  }

  /** Reading escaped text adds exactly the original text to the argument. */
  lemma {:induction false} SplitEscaped(s: string, closing: bool, tail: string, started: bool, quoted: bool, arg: string)
    requires if closing then tail != "" && tail[0] == '"' else tail == "" || IsBlank(tail[0])
    requires quoted || forall c :: c in s ==> !IsBlank(c)
    ensures Split(Escaped(s, closing) + tail, started, quoted, arg) == Split(tail, started || s != "", quoted, arg + s)
    decreases |s|
  {
    hide Split, Escaped, Slashes;
    var n, rest := ByRun(s);
    EscapedForm(n, rest, closing);
    if rest == "" {
      assert s == Slashes(n);
      if closing {
        SplitEscape(n, tail, started, quoted, arg);
      } else {
        SplitSlashes(n, tail, started, quoted, arg);
      }
    } else {
      var c, more := rest[0], rest[1..];
      assert rest == [c] + more;
      Members(s, n, c, more);
      var run, e := Slashes(if c == '"' then 2 * n + 1 else n), Escaped(more, closing);
      Assoc(run, [c] + e, tail);
      Assoc([c], e, tail);
      SplitRun(n, c, e + tail, started, quoted, arg);
      SplitEscaped(more, closing, tail, true, quoted, arg + (Slashes(n) + [c]));
      Assoc(Slashes(n), [c], more);
      Assoc(arg, Slashes(n) + [c], more);
    }
  }

  lemma Members(s: string, n: nat, c: char, more: string)
    requires s == Slashes(n) + ([c] + more)
    ensures c in s && (forall d :: d in more ==> d in s) && |more| < |s|
  {}

  // ---- arg_quote ---------------------------------------------------------------------------

  function Quoted(s: string): string { ['"'] + Escaped(s, true) + ['"'] }

  /** The arguments one after the other, quoted by q and separated by single spaces. */
  function Joined(args: seq<string>, q: string -> string): string {
    if args == [] then ""
    else if |args| == 1 then q(args[0])
    else Joined(args[..|args| - 1], q) + " " + q(args[|args| - 1])
  }

  /** Reading q(s) where an argument starts makes the argument s, whatever follows. */
  ghost predicate ReadsBack(q: string -> string, split: Reader) {
    forall s: string, tail: string :: (tail == "" || IsBlank(tail[0])) ==>
      split(q(s) + tail, false, false, "") == split(tail, true, false, s)
  }

  lemma QuotedReadsBack()
    ensures ReadsBack(Quoted, Split)
  {
    hide Split, Quoted;
    forall s: string, tail: string | tail == "" || IsBlank(tail[0])
      ensures Split(Quoted(s) + tail, false, false, "") == Split(tail, true, false, s)
    {
      SplitQuoted(s, tail);
    }
  }

  /** One quoted argument, read at the start of an argument. */
  lemma SplitQuoted(s: string, tail: string)
    requires tail == "" || IsBlank(tail[0])
    ensures Split(Quoted(s) + tail, false, false, "") == Split(tail, true, false, s)
  {
    hide Split, Escaped;
    var close := ['"'] + tail;
    Assoc(['"'] + Escaped(s, true), ['"'], tail);
    Assoc(['"'], Escaped(s, true), close);
    SplitOpen(Escaped(s, true) + close, false, "");
    SplitEscaped(s, true, close, true, true, "");
    assert "" + s == s;
    SplitClose(tail, s);
  }

  lemma SplitOpen(tail: string, started: bool, arg: string)
    ensures Split(['"'] + tail, started, false, arg) == Split(tail, true, true, arg)
  {
    assert (['"'] + tail)[1..] == tail;
  }

  lemma SplitClose(tail: string, arg: string)
    requires tail == "" || IsBlank(tail[0])
    ensures Split(['"'] + tail, true, true, arg) == Split(tail, true, false, arg)
  {
    assert (['"'] + tail)[1..] == tail;
  }

  /** A list of arguments, quoted and joined, is read back as the same list. */
  lemma {:induction false} JoinedReadsBack(args: seq<string>, q: string -> string, split: Reader)
    requires Separates(split) && ReadsBack(q, split)
    ensures forall tail: string :: args != [] && (tail == "" || IsBlank(tail[0])) ==>
              split(Joined(args, q) + tail, false, false, "")
              == args[..|args| - 1] + split(tail, true, false, args[|args| - 1])
    ensures split(Joined(args, q), false, false, "") == args
  {
    hide Separates, ReadsBack;
    if args == [] {
      SeparatesAt(split, false, "", "");
    } else {
      var n := |args| - 1;
      var last := args[n];
      forall t: string | t == "" || IsBlank(t[0])
        ensures split(Joined(args, q) + t, false, false, "") == args[..n] + split(t, true, false, last)
      {
        ReadsBackAt(q, split, last, t);
        if n > 0 {
          JoinedReadsBack(args[..n], q, split);
          assert args[..n][..n - 1] == args[..n - 1];
          JoinedStep(args, q, split, t);
        }
      }
      assert Joined(args, q) + "" == Joined(args, q);
      SeparatesAt(split, true, "", last);
      assert args[..n] + [last] == args;
    }
  }

  lemma SeparatesAt(split: Reader, started: bool, tail: string, arg: string)
    requires Separates(split)
    ensures split("", started, false, arg) == if started then [arg] else []
    ensures split(" " + tail, true, false, arg) == [arg] + split(tail, false, false, "")
  {}

  lemma ReadsBackAt(q: string -> string, split: Reader, s: string, tail: string)
    requires ReadsBack(q, split) && (tail == "" || IsBlank(tail[0]))
    ensures split(q(s) + tail, false, false, "") == split(tail, true, false, s)
  {}

  /** The last argument, behind those before it. */
  lemma JoinedStep(args: seq<string>, q: string -> string, split: Reader, t: string)
    requires |args| > 1 && Separates(split) && ReadsBack(q, split) && (t == "" || IsBlank(t[0]))
    requires var n := |args| - 1;
             var more := " " + (q(args[n]) + t);
             split(Joined(args[..n], q) + more, false, false, "") == args[..n - 1] + split(more, true, false, args[n - 1])
    ensures var n := |args| - 1;
            split(Joined(args, q) + t, false, false, "") == args[..n] + split(t, true, false, args[n])
  {
    hide Separates, ReadsBack, Joined;
    var n := |args| - 1;
    JoinedSnoc(args, q, t);
    ReadsBackAt(q, split, args[n], t);
    var more := q(args[n]) + t;
    SeparatesAt(split, true, more, args[n - 1]);
    PutBack(args, n, split(t, true, false, args[n]));
  }

  lemma PutBack(args: seq<string>, n: nat, rest: seq<string>)
    requires 0 < n <= |args|
    ensures args[..n - 1] + ([args[n - 1]] + rest) == args[..n] + rest
  {
    assert args[..n] == args[..n - 1] + [args[n - 1]];
  }

  lemma JoinedSnoc(args: seq<string>, q: string -> string, t: string)
    requires |args| > 1
    ensures var n := |args| - 1; Joined(args, q) + t == Joined(args[..n], q) + (" " + (q(args[n]) + t))
  {
    var n := |args| - 1;
    Regroup(Joined(args[..n], q), " ", q(args[n]), t);
  }

  lemma Regroup(a: string, b: string, c: string, d: string)
    ensures a + b + c + d == a + (b + (c + d))
  {}

  lemma SplitEmpty(started: bool, arg: string)
    ensures Split("", started, false, arg) == if started then [arg] else []
  {}

  class Buf {
    var s: string

    constructor ()
      ensures s == ""
    {
      s := "";
    }

    /** arg_quote: fails only for a line break on its way to a response file. */
    method ArgQuote(arg: string, response: bool) returns (ok: bool)
      modifies this`s
      ensures ok <==> !response || OneLine(arg)
      ensures ok ==> s == old(s) + (if old(s) == "" then "" else " ") + if response then Listed(arg) else Quoted(arg)
    {
      hide Escaped, ListEscaped;
      if s != "" {
        s := s + " ";
      }
      ghost var before := s;
      s := s + ['"'];
      ghost var text := if response then ListEscaped(arg) else Escaped(arg, true);
      ok := true;
      if response {
        ok := ListBody(arg);
        if !ok {
          return;
        }
      } else {
        QuoteBody(arg);
      }
      Assoc(before, ['"'], text);
      s := s + ['"'];
      Assoc(before, ['"'] + text, ['"']);
    }

    /** The loop for response files: a backslash before each quote and backslash. */
    method ListBody(arg: string) returns (ok: bool)
      modifies this`s
      ensures ok <==> OneLine(arg)
      ensures ok ==> s == old(s) + ListEscaped(arg)
    {
      hide ListEscaped;
      ListNone();
      assert arg[..0] == "" && s + "" == s;
      for p := 0 to |arg|
        invariant OneLine(arg[..p]) && s == old(s) + ListEscaped(arg[..p])
      {
        ListSnoc(arg, p);
        if arg[p] == '\n' || arg[p] == '\r' {
          return false;
        }
        ghost var sofar := ListEscaped(arg[..p]);
        if arg[p] == '\\' || arg[p] == '"' {
          s := s + ['\\'];
          Assoc(old(s), sofar, ['\\']);
          s := s + [arg[p]];
          Assoc(old(s), sofar + ['\\'], [arg[p]]);
          Assoc(sofar, ['\\'], [arg[p]]);
        } else {
          s := s + [arg[p]];
          Assoc(old(s), sofar, [arg[p]]);
        }
      }
      assert arg[..|arg|] == arg;
      ok := true;
    }

    /** The loop outside response files. */
    method QuoteBody(arg: string)
      modifies this`s
      ensures s == old(s) + Escaped(arg, true)
    {
      hide Escaped;
      ghost var head := s;
      var p := 0;
      assert arg[0..] == arg;
      while p < |arg|
        invariant p <= |arg| && s + Escaped(arg[p..], true) == head + Escaped(arg, true)
        decreases |arg| - p
      {
        p := QuoteRun(arg, p);
      }
      EscapedEnd();
      assert arg[p..] == "" && s + "" == s;
    }

    /** The loop's body: a run of backslashes and the character after it, if any. */
    method QuoteRun(arg: string, p0: nat) returns (p: nat)
      requires p0 < |arg|
      modifies this`s
      ensures p0 < p <= |arg| && s + Escaped(arg[p..], true) == old(s) + Escaped(arg[p0..], true)
    {
      hide Escaped;
      ghost var s0 := s;
      var n;
      n, p := SkipRun(arg, p0);
      EscapedForm(n, arg[p..], true);
      if p == |arg| {
        s := s + Slashes(2 * n);
        EscapedEnd();
        assert arg[p..] == "" && s + "" == s;
        return;
      }
      ghost var run := Slashes(if arg[p] == '"' then 2 * n + 1 else n);
      if arg[p] == '"' {
        s := s + Slashes(2 * n);
        s := s + ['\\'];
        Assoc(s0, Slashes(2 * n), ['\\']);
        assert Slashes(2 * n) + ['\\'] == run;
      } else {
        s := s + Slashes(n);
      }
      assert s == s0 + run;
      s := s + [arg[p]];
      Assoc(s0, run, [arg[p]] + Escaped(arg[p + 1..], true));
      Assoc(s0 + run, [arg[p]], Escaped(arg[p + 1..], true));
      assert arg[p..][1..] == arg[p + 1..];
      p := p + 1;
    }

    /** The inner loop: the backslashes at p. */
    method SkipRun(arg: string, p0: nat) returns (n: nat, p: nat)
      requires p0 <= |arg|
      ensures p0 <= p <= |arg| && p == p0 + n && arg[p0..] == Slashes(n) + arg[p..]
      ensures p < |arg| ==> arg[p] != '\\'
    {
      n, p := 0, p0;
      while p < |arg| && arg[p] == '\\'
        invariant p <= |arg| && p == p0 + n && forall i :: p0 <= i < p ==> arg[i] == '\\'
      {
        n, p := n + 1, p + 1;
      }
    }
  }

  lemma EscapedEnd()
    ensures Escaped("", true) == ""
  {}

  // ---- response files --------------------------------------------------------------------

  predicate OneLine(s: string) { '\n' !in s && '\r' !in s }

  function ListEscaped(s: string): string {
    if s == "" then ""
    else
      var n := |s| - 1;
      ListEscaped(s[..n]) + if s[n] == '\\' || s[n] == '"' then ['\\', s[n]] else [s[n]]
  }

  function Listed(s: string): string { ['"'] + ListEscaped(s) + ['"'] }

  lemma ListNone()
    ensures ListEscaped("") == ""
  {}

  lemma ListSnoc(s: string, p: nat)
    requires p < |s|
    ensures ListEscaped(s[..p + 1]) ==
            ListEscaped(s[..p]) + if s[p] == '\\' || s[p] == '"' then ['\\'] + [s[p]] else [s[p]]
    ensures OneLine(s[..p + 1]) <==> OneLine(s[..p]) && s[p] != '\n' && s[p] != '\r'
    ensures OneLine(s) ==> OneLine(s[..p + 1])
  {
    assert s[..p + 1][..p] == s[..p] && s[..p + 1] == s[..p] + [s[p]];
    assert s == s[..p + 1] + s[p + 1..];
  }

  /** Inside quotes, escaped text adds exactly the original text. */
  lemma {:induction false} ListSplitEscaped(s: string, tail: string)
    ensures forall arg: string :: ListSplit(ListEscaped(s) + tail, true, true, arg) == ListSplit(tail, true, true, arg + s)
    decreases |s|
  {
    hide ListSplit;
    if s == "" {
      assert ListEscaped(s) + tail == tail;
      forall arg: string ensures arg + s == arg {}
    } else {
      var n := |s| - 1;
      var e := if s[n] == '\\' || s[n] == '"' then ['\\', s[n]] else [s[n]];
      Assoc(ListEscaped(s[..n]), e, tail);
      ListSplitEscaped(s[..n], e + tail);
      forall arg: string
        ensures ListSplit(ListEscaped(s) + tail, true, true, arg) == ListSplit(tail, true, true, arg + s)
      {
        ListSplitOne(s[n], tail, arg + s[..n]);
        assert (arg + s[..n]) + [s[n]] == arg + s;
      }
    }
  }

  lemma ListSplitOne(c: char, tail: string, arg: string)
    ensures var e := if c == '\\' || c == '"' then ['\\', c] else [c];
            ListSplit(e + tail, true, true, arg) == ListSplit(tail, true, true, arg + [c])
  {
    assert (['\\', c] + tail)[2..] == tail && ([c] + tail)[1..] == tail;
  }

  lemma ListedReadsBack()
    ensures ReadsBack(Listed, ListSplit)
  {
    hide ListSplit, ListEscaped;
    forall s: string, tail: string | tail == "" || IsBlank(tail[0])
      ensures ListSplit(Listed(s) + tail, false, false, "") == ListSplit(tail, true, false, s)
    {
      var close := ['"'] + tail;
      Assoc(['"'] + ListEscaped(s), ['"'], tail);
      Assoc(['"'], ListEscaped(s), close);
      ListSplitQuote(ListEscaped(s) + close, false, false, "");
      ListSplitEscaped(s, close);
      assert "" + s == s;
      ListSplitQuote(tail, true, true, s);
    }
  }

  lemma ListSplitQuote(tail: string, started: bool, quoted: bool, arg: string)
    ensures ListSplit(['"'] + tail, started, quoted, arg) == ListSplit(tail, true, !quoted, arg)
  {
    assert (['"'] + tail)[1..] == tail;
  }

  /** dynarray_split */
  method DynarraySplit(text: string, sep: Option<char>) returns (argv: seq<string>)
    ensures argv == Arguments(text, sep, false, false, "")
  {
    hide Arguments;
    argv := [];
    var p := 0;
    ghost var all := Arguments(text, sep, false, false, "");
    assert text[0..] == text && [] + all == all;
    while true
      invariant p <= |text| && argv + Arguments(text[p..], sep, false, false, "") == all
      decreases |text| - p
    {
      p := SkipBlanks(text, p, sep);
      if p == |text| {
        ArgumentsEnd(sep, false, false, "");
        assert text[p..] == "" && argv + [] == argv;
        return;
      }
      var str;
      ghost var start := p;
      str, p := TakeArgument(text, p, sep);
      Joins(argv, str, Arguments(text[p..], sep, false, false, ""));
      argv := argv + [str];
    }
  }

  lemma Joins(argv: seq<string>, str: string, rest: seq<string>)
    ensures argv + ([str] + rest) == (argv + [str]) + rest
  {}

  lemma ArgumentsEnd(sep: Option<char>, started: bool, quoted: bool, arg: string)
    ensures Arguments("", sep, started, quoted, arg) == if started then [arg] else []
  {}

  method SkipBlanks(text: string, p0: nat, sep: Option<char>) returns (p: nat)
    requires p0 <= |text|
    ensures p0 <= p <= |text| && (p < |text| ==> text[p] > ' ')
    ensures Arguments(text[p..], sep, false, false, "") == Arguments(text[p0..], sep, false, false, "")
  {
    hide Arguments;
    p := p0;
    while p < |text| && text[p] <= ' '
      invariant p0 <= p <= |text| && Arguments(text[p..], sep, false, false, "") == Arguments(text[p0..], sep, false, false, "")
    {
      ArgumentsStep(text, p, sep, false, false, "");
      assert [] + Arguments(text[p + 1..], sep, false, false, "") == Arguments(text[p + 1..], sep, false, false, "");
      p := p + 1;
    }
  }

  /** The inner loop: one argument. */
  method TakeArgument(text: string, p0: nat, sep: Option<char>) returns (str: string, p: nat)
    requires p0 < |text| && text[p0] > ' '
    ensures p0 < p <= |text|
    ensures Arguments(text[p0..], sep, false, false, "") == [str] + Arguments(text[p..], sep, false, false, "")
  {
    hide Arguments;
    var qot := false;
    str, p := "", p0;
    ghost var all := Arguments(text[p0..], sep, false, false, "");
    while p < |text|
      invariant p0 <= p <= |text| && Arguments(text[p..], sep, p > p0, qot, str) == all
      invariant p == p0 ==> !qot && str == "" && p < |text| && text[p] > ' '
    {
      ArgumentsStep(text, p, sep, p > p0, qot, str);
      var c := text[p];
      p := p + 1;
      if sep.Some? {
        if c == sep.value {
          return;
        }
      } else if c == '\\' && p < |text| && (text[p] == '"' || text[p] == '\\') {
        c, p := text[p], p + 1;
      } else if c == '"' {
        qot := !qot;
        continue;
      } else if c <= ' ' && !qot {
        return;
      }
      str := str + [c];
    }
    ArgumentsEnd(sep, true, qot, str);
    ArgumentsEnd(sep, false, false, "");
    assert text[p..] == "" && [str] + [] == [str];
  }

  lemma ArgumentsStep(text: string, p: nat, sep: Option<char>, started: bool, quoted: bool, arg: string)
    requires p < |text|
    ensures Arguments(text[p..], sep, started, quoted, arg) ==
            if sep.Some? && (started || text[p] > ' ') then
              if text[p] == sep.value then [arg] + Arguments(text[p + 1..], sep, false, false, "")
              else Arguments(text[p + 1..], sep, true, quoted, arg + [text[p]])
            else if sep.Some? then Arguments(text[p + 1..], sep, false, false, "")
            else if text[p] == '\\' && p + 1 < |text| && (text[p + 1] == '"' || text[p + 1] == '\\')
            then Arguments(text[p + 2..], sep, true, quoted, arg + [text[p + 1]])
            else if text[p] == '"' then Arguments(text[p + 1..], sep, true, !quoted, arg)
            else if text[p] <= ' ' && !quoted then (if started then [arg] else []) + Arguments(text[p + 1..], sep, false, false, "")
            else Arguments(text[p + 1..], sep, true, quoted, arg + [text[p]])
  {
    ListSplitStep(text, p, started, quoted, arg);
    hide ListSplit;
    assert text[p..][1..] == text[p + 1..];
  }

  /** Nothing that a response file treats in a special way. */
  predicate IsWord(a: string) { forall c :: c in a ==> c > ' ' && c != '"' && c != '\\' }

  lemma WordStep(c: char, tail: string, started: bool, quoted: bool, arg: string)
    requires c > ' ' && c != '"' && c != '\\'
    ensures ListSplit([c] + tail, started, quoted, arg) == ListSplit(tail, true, quoted, arg + [c])
  {
    assert ([c] + tail)[1..] == tail;
  }

  lemma {:induction false} WordTakes(a: string, tail: string, quoted: bool, arg: string)
    requires IsWord(a)
    ensures ListSplit(a + tail, true, quoted, arg) == ListSplit(tail, true, quoted, arg + a)
  {
    hide ListSplit;
    if a == "" {
      assert a + tail == tail && arg + a == arg;
    } else {
      assert a[0] in a && a + tail == [a[0]] + (a[1..] + tail) && forall c :: c in a[1..] ==> c in a;
      WordStep(a[0], a[1..] + tail, true, quoted, arg);
      WordTakes(a[1..], tail, quoted, arg + [a[0]]);
      assert (arg + [a[0]]) + a[1..] == arg + a;
    }
  }

  lemma WordThen(a: string, tail: string)
    requires IsWord(a) && a != ""
    ensures ListSplit(a + tail, false, false, "") == ListSplit(tail, true, false, a)
  {
    hide ListSplit;
    assert a[0] in a && a + tail == [a[0]] + (a[1..] + tail) && forall c :: c in a[1..] ==> c in a;
    WordStep(a[0], a[1..] + tail, false, false, "");
    WordTakes(a[1..], tail, false, [a[0]]);
    assert [a[0]] + a[1..] == a && "" + [a[0]] == [a[0]];
  }

  /** In a response file every blank and control character separates words. */
  lemma ListSeparatesAt(a: string, c: char, b: string)
    requires IsWord(a) && IsWord(b) && a != "" && b != "" && c as int <= 32
    ensures ListSplit(a + ([c] + b), false, false, "") == [a, b]
  {
    WordThen(a, [c] + b);
    assert ([c] + b)[1..] == b;
    WordThen(b, "");
    assert b + "" == b && [a] + [b] == [a, b];
  }

  /** There a backslash is one unless a quote or another one follows, and quotes keep blanks
      inside a word. */
  lemma ListQuotes(a: string, b: string, c: char, d: char)
    requires IsWord(a) && IsWord(b) && a != "" && c as int <= 32 && d > ' ' && d != '"' && d != '\\'
    ensures ListSplit(a + (['"', c] + (b + "\"")), false, false, "") == [a + [c] + b]
    ensures ListSplit(a + (['\\', d] + b), false, false, "") == [a + ['\\', d] + b]
  {
    WordThen(a, ['"', c] + (b + "\""));
    assert (['"', c] + (b + "\""))[1..] == [c] + (b + "\"") && ([c] + (b + "\""))[1..] == b + "\"";
    WordTakes(b, "\"", true, a + [c]);
    assert "\""[1..] == "";
    WordThen(a, ['\\', d] + b);
    assert (['\\', d] + b)[1..] == [d] + b && ([d] + b)[1..] == b;
    WordTakes(b, "", false, a + ['\\'] + [d]);
    assert b + "" == b && a + ['\\'] + [d] + b == a + ['\\', d] + b;
  }

  /** Arguments put together with a separator. */
  function Separated(args: seq<string>, sep: char): string {
    if args == [] then "" else if |args| == 1 then args[0] else args[0] + ([sep] + Separated(args[1..], sep))
  }

  /** No separator inside and no blank in front. */
  predicate IsField(a: string, sep: char) { sep !in a && (a == "" || a[0] > ' ') }

  lemma {:induction false} FieldTakes(a: string, tail: string, sep: char, arg: string)
    requires sep !in a
    ensures FieldSplit(a + tail, sep, true, arg) == FieldSplit(tail, sep, true, arg + a)
  {
    if a == "" {
      assert a + tail == tail && arg + a == arg;
    } else {
      assert a[0] in a && (a + tail)[1..] == a[1..] + tail;
      FieldTakes(a[1..], tail, sep, arg + [a[0]]);
      assert (arg + [a[0]]) + a[1..] == arg + a;
    }
  }

  /** One field and what stands behind it. */
  lemma FieldThen(a: string, tail: string, sep: char)
    requires IsField(a, sep) && a != ""
    ensures FieldSplit(a + tail, sep, false, "") == FieldSplit(tail, sep, true, a)
  {
    assert (a + tail)[1..] == a[1..] + tail && a[0] in a;
    FieldTakes(a[1..], tail, sep, [a[0]]);
    assert [a[0]] + a[1..] == a && "" + [a[0]] == [a[0]];
  }

  lemma FieldEnds(tail: string, sep: char, started: bool, arg: string)
    requires sep > ' '
    ensures FieldSplit([sep] + tail, sep, started, arg) == [arg] + FieldSplit(tail, sep, false, "")
  {
    assert ([sep] + tail)[1..] == tail;
  }

  /** Fields come back, except that nothing is made of an empty last one. */
  lemma {:induction false} FieldsReadBack(args: seq<string>, sep: char)
    requires sep > ' ' && forall a :: a in args ==> IsField(a, sep)
    ensures FieldSplit(Separated(args, sep), sep, false, "") ==
            if args == [] || args[|args| - 1] != "" then args else args[..|args| - 1]
  {
    hide FieldSplit;
    FieldNothing(sep);
    if args != [] {
      var a, more := args[0], args[1..];
      assert args == [a] + more && a in args;
      if a != "" {
        FieldThen(a, if more == [] then "" else [sep] + Separated(more, sep), sep);
        assert a + "" == a;
      }
      if more != [] {
        FieldEnds(Separated(more, sep), sep, a != "", a);
        assert a == "" ==> a + ([sep] + Separated(more, sep)) == [sep] + Separated(more, sep);
        FieldsReadBack(more, sep);
        assert [a] + more[..|more| - 1] == args[..|args| - 1];
      }
    }
  }

  lemma FieldNothing(sep: char)
    ensures FieldSplit("", sep, false, "") == [] && forall a: string :: FieldSplit("", sep, true, a) == [a]
  {}

  /** Only fields are ever read. */
  lemma {:induction false} OnlyFields(s: string, sep: char, started: bool, arg: string)
    requires IsField(arg, sep) && (!started ==> arg == "") && (started ==> arg != "")
    ensures forall a :: a in FieldSplit(s, sep, started, arg) ==> IsField(a, sep)
    decreases |s|
  {
    if s != "" {
      if (s[0] <= ' ' && !started) || s[0] == sep {
        OnlyFields(s[1..], sep, false, "");
      } else {
        OnlyFields(s[1..], sep, true, arg + [s[0]]);
      }
    }
  }

  /** A separated list is read back exactly when it holds fields only and does not end
      in an empty one. */
  lemma SeparatedReadsBack(args: seq<string>, sep: char)
    requires sep > ' '
    ensures FieldSplit(Separated(args, sep), sep, false, "") == args <==>
            (forall a :: a in args ==> IsField(a, sep)) && (args == [] || args[|args| - 1] != "")
  {
    hide FieldSplit, Separated;
    OnlyFields(Separated(args, sep), sep, false, "");
    if forall a :: a in args ==> IsField(a, sep) {
      FieldsReadBack(args, sep);
    }
  }

  lemma ListSplitStep(text: string, p: nat, started: bool, quoted: bool, arg: string)
    requires p < |text|
    ensures ListSplit(text[p..], started, quoted, arg) ==
            if text[p] == '\\' && p + 1 < |text| && (text[p + 1] == '"' || text[p + 1] == '\\')
            then ListSplit(text[p + 2..], true, quoted, arg + [text[p + 1]])
            else if text[p] == '"' then ListSplit(text[p + 1..], true, !quoted, arg)
            else if text[p] <= ' ' && !quoted then (if started then [arg] else []) + ListSplit(text[p + 1..], false, false, "")
            else ListSplit(text[p + 1..], true, quoted, arg + [text[p]])
  {
    assert text[p..][1..] == text[p + 1..];
    if p + 1 < |text| {
      assert text[p..][2..] == text[p + 2..];
    }
  }

  // ---- the program name in front ------------------------------------------------------------

  /** The C runtime's reading of the program name: quotes only toggle, backslashes
      are ordinary, a blank outside quotes ends it. */
  function Program(s: string, quoted: bool, name: string): (string, string) {
    if s == "" then (name, "")
    else if s[0] == '"' then Program(s[1..], !quoted, name)
    else if IsBlank(s[0]) && !quoted then (name, s)
    else Program(s[1..], quoted, name + [s[0]])
  }

  /** A whole command line, program name first. */
  function Started(line: string): seq<string> {
    var (name, rest) := Program(line, false, "");
    [name] + Split(rest, false, false, "")
  }

  predicate PlainProgram(s: string) { '"' !in s && (s == "" || s[|s| - 1] != '\\') }

  /** Text without quotes is taken as it is inside quotes. */
  lemma {:induction false} ProgramTakes(s: string, tail: string, name: string)
    requires '"' !in s
    ensures Program(s + tail, true, name) == Program(tail, true, name + s)
  {
    if s == "" {
      assert s + tail == tail && name + s == name;
    } else {
      assert (s + tail)[1..] == s[1..] + tail;
      ProgramTakes(s[1..], tail, name + [s[0]]);
      assert (name + [s[0]]) + s[1..] == name + s;
    }
  }

  lemma {:induction false} ProgramHasNoQuote(s: string, quoted: bool, name: string)
    requires '"' !in name
    ensures '"' !in Program(s, quoted, name).0
  {
    if s != "" && !(IsBlank(s[0]) && !quoted) {
      ProgramHasNoQuote(s[1..], if s[0] == '"' then !quoted else quoted, if s[0] == '"' then name else name + [s[0]]);
    }
  }

  /** Without quotes only the last run of backslashes is changed. */
  lemma {:induction false} EscapedWithoutQuotes(s: string)
    requires '"' !in s
    ensures Escaped(s, false) == s && Escaped(s, true) == s + Slashes(Trail(s))
    decreases |s|
  {
    hide Escaped, Trail, Slashes;
    var n, rest := ByRun(s);
    EscapedForm(n, rest, false);
    EscapedUndone(s);
    if rest != "" {
      assert rest == [rest[0]] + rest[1..];
      Members(s, n, rest[0], rest[1..]);
      EscapedWithoutQuotes(rest[1..]);
    } else {
      assert s == Slashes(n);
    }
  }

  lemma ProgramQuote(tail: string, quoted: bool, name: string)
    ensures Program(['"'] + tail, quoted, name) == Program(tail, !quoted, name)
  {
    assert (['"'] + tail)[1..] == tail;
  }

  lemma ProgramEnds(tail: string, name: string)
    requires tail == "" || IsBlank(tail[0])
    ensures Program(tail, false, name) == (name, tail)
  {}

  /** The quoted program name is read back exactly when it holds no quote and does not
      end in a backslash. */
  lemma ProgramReadsBack(s: string, tail: string)
    requires tail == "" || IsBlank(tail[0])
    ensures PlainProgram(s) ==> Program(Quoted(s) + tail, false, "") == (s, tail)
    ensures !PlainProgram(s) ==> Program(Quoted(s) + tail, false, "").0 != s
  {
    hide Program, Escaped, Trail;
    if '"' in s {
      ProgramHasNoQuote(Quoted(s) + tail, false, "");
    } else {
      EscapedWithoutQuotes(s);
      var e := s + Slashes(Trail(s));
      assert Quoted(s) + tail == ['"'] + (e + (['"'] + tail));
      ProgramQuote(e + (['"'] + tail), false, "");
      ProgramTakes(e, ['"'] + tail, "");
      ProgramQuote(tail, true, "" + e);
      ProgramEnds(tail, "" + e);
      TrailIsNone(s);
      assert "" + e == e;
    }
  }

  lemma TrailIsNone(s: string)
    ensures Trail(s) == 0 <==> s == "" || s[|s| - 1] != '\\'
    ensures Slashes(0) == "" && s + "" == s
  {}

  lemma {:induction false} JoinedFront(head: string, args: seq<string>, q: string -> string)
    ensures Joined([head] + args, q) == q(head) + (if args == [] then "" else " " + Joined(args, q))
  {
    var all := [head] + args;
    if args == [] {
      assert all == [head] && q(head) + "" == q(head);
    } else {
      var n := |args| - 1;
      assert all[..|all| - 1] == [head] + args[..n];
      JoinedFront(head, args[..n], q);
      if n == 0 {
        assert q(head) + "" == q(head);
        assert q(head) + " " + q(args[0]) == q(head) + (" " + q(args[0]));
      } else {
        assert q(head) + (" " + Joined(args[..n], q)) + " " + q(args[n]) == q(head) + (" " + (Joined(args[..n], q) + " " + q(args[n])));
      }
    }
  }

  /** What stands behind the program name. */
  function Behind(args: seq<string>, q: string -> string): string { if args == [] then "" else " " + Joined(args, q) }

  /** The program and its arguments, from the line that starts it. */
  lemma StartedReadsBack(tool: string, args: seq<string>)
    ensures Started(Joined([tool] + args, Quoted)) == [tool] + args <==> PlainProgram(tool)
  {
    hide Started, Program, Quoted, Joined;
    QuotedReadsBack();
    ProgramReadsBack(tool, Behind(args, Quoted));
    StartedBy(tool, args, Quoted);
  }

  /** For arguments that read back only the program name matters. */
  lemma StartedBy(tool: string, args: seq<string>, q: string -> string)
    requires ReadsBack(q, Split)
    ensures var name, line := Program(q(tool) + Behind(args, q), false, ""), Joined([tool] + args, q);
            && (name == (tool, Behind(args, q)) ==> Started(line) == [tool] + args)
            && (name.0 != tool ==> Started(line) != [tool] + args)
  {
    hide Split, Program, Joined, Separates, ReadsBack;
    JoinedFront(tool, args, q);
    BothSeparate();
    JoinedReadsBack(args, q, Split);
    SplitTail(args, Joined(args, q));
    var started := Started(Joined([tool] + args, q));
    assert started[0] == Program(q(tool) + Behind(args, q), false, "").0;
  }

  lemma SplitTail(args: seq<string>, joined: string)
    requires Split(joined, false, false, "") == args
    ensures Split(if args == [] then "" else " " + joined, false, false, "") == args
  {
    if args != [] {
      assert (" " + joined)[1..] == joined;
      assert [] + args == args;
    }
  }

  function Quoter(response: bool): string -> string { if response then Listed else Quoted }

  /** The buffer holds these arguments. */
  ghost predicate Holds(s: string, args: seq<string>, response: bool) {
    s == Joined(args, Quoter(response)) && (s == "" <==> args == []) && (response ==> forall a :: a in args ==> OneLine(a))
  }

  lemma HoldsOne(s: string, args: seq<string>, a: string, response: bool)
    requires Holds(s, args, response) && (response ==> OneLine(a))
    ensures Holds(s + (if s == "" then "" else " ") + Quoter(response)(a), args + [a], response)
  {
    hide Listed, Quoted, OneLine;
    NeverEmpty();
    var all := args + [a];
    assert all[..|args|] == args;
  }

  /** One argument after another. */
  method QuoteOneMore(b: Buf, ghost args: seq<string>, a: string, response: bool) returns (ok: bool)
    requires Holds(b.s, args, response)
    modifies b
    ensures ok <==> !response || OneLine(a)
    ensures ok ==> Holds(b.s, args + [a], response)
  {
    hide Holds, OneLine, Listed, Quoted;
    if !response || OneLine(a) {
      HoldsOne(b.s, args, a, response);
    }
    ok := b.ArgQuote(a, response);
  }

  /** command_line: its reader gets the list back, the C runtime or the compiler
      reading a response file; for a tool name in front, as far as the C runtime can. */
  method CommandLine(tool: Option<string>, args: seq<string>, response: bool) returns (ok: bool, line: string)
    ensures var all := if tool.Some? then [tool.value] + args else args;
            && (ok <==> !response || forall a :: a in all ==> '\n' !in a && '\r' !in a)
            && (ok ==> line == Joined(all, Quoter(response)))
            && (ok && response ==> ListSplit(line, false, false, "") == all)
            && (ok && !response && tool.None? ==> Split(line, false, false, "") == args)
            && (ok && !response && tool.Some? ==> (Started(line) == all <==> PlainProgram(tool.value)))
  {
    hide Quoted, Listed, Started, PlainProgram, Joined, Split, ListSplit, Holds;
    var b := new Buf();
    ghost var front := if tool.Some? then [tool.value] else [];
    ghost var all := if tool.Some? then [tool.value] + args else args;
    HoldsNone(response);
    if tool.Some? {
      ok := QuoteOneMore(b, [], tool.value, response);
      if !ok {
        assert tool.value in all;
        return false, "";
      }
      assert [] + [tool.value] == front;
    }
    assert front + args[..0] == front;
    for i := 0 to |args|
      invariant Holds(b.s, front + args[..i], response)
    {
      assert front + args[..i + 1] == (front + args[..i]) + [args[i]];
      ok := QuoteOneMore(b, front + args[..i], args[i], response);
      if !ok {
        assert args[i] in all;
        return false, "";
      }
    }
    assert front + args[..|args|] == all;
    HoldsAll(b.s, all, response);
    LineReadsBack(tool, args);
    ok, line := true, b.s;
  }

  lemma HoldsAll(s: string, args: seq<string>, response: bool)
    requires Holds(s, args, response)
    ensures s == Joined(args, Quoter(response)) && (response ==> forall a :: a in args ==> OneLine(a))
  {
    hide Joined, OneLine;
  }

  lemma HoldsNone(response: bool)
    ensures Holds("", [], response)
  {}

  lemma LineReadsBack(tool: Option<string>, args: seq<string>)
    ensures var all := if tool.Some? then [tool.value] + args else args;
            && ListSplit(Joined(all, Listed), false, false, "") == all
            && (tool.None? ==> Split(Joined(args, Quoted), false, false, "") == args)
            && (tool.Some? ==> (Started(Joined(all, Quoted)) == all <==> PlainProgram(tool.value)))
  {
    hide Started, PlainProgram, Separates, ReadsBack;
    BothSeparate();
    QuotedReadsBack();
    ListedReadsBack();
    JoinedReadsBack(args, Quoted, Split);
    JoinedReadsBack(if tool.Some? then [tool.value] + args else args, Listed, ListSplit);
    if tool.Some? {
      StartedReadsBack(tool.value, args);
    }
  }

  lemma NeverEmpty()
    ensures forall s: string :: Quoted(s) != "" && Listed(s) != ""
  {}

  // ---- quote_win32 -------------------------------------------------------------------------

  /** The number of backslashes at the back. */
  function Trail(s: string): (n: nat)
    ensures n <= |s|
  {
    if s == "" || s[|s| - 1] != '\\' then 0 else 1 + Trail(s[..|s| - 1])
  }

  predicate NeedsQuotes(s: string) { s == "" || ' ' in s || '\t' in s }

  /** An argument in quotes only if it is empty or holds a blank. */
  function Spawned(s: string): string {
    if NeedsQuotes(s) then Quoted(s) else Escaped(s, false)
  }

  lemma {:induction false} TrailAfter(a: string, c: char, more: string)
    requires c != '\\'
    ensures Trail(a + ([c] + more)) == Trail(more)
  {
    var s := a + ([c] + more);
    if more != "" {
      assert s[..|s| - 1] == a + ([c] + more[..|more| - 1]);
      TrailAfter(a, c, more[..|more| - 1]);
    }
  }

  lemma {:induction false} TrailOfSlashes(n: nat)
    ensures Trail(Slashes(n)) == n
  {
    if n > 0 {
      assert Slashes(n)[..n - 1] == Slashes(n - 1);
      TrailOfSlashes(n - 1);
    }
  }

  /** The undo: without a closing quote, the trailing run is written once only. */
  lemma {:induction false} EscapedUndone(s: string)
    ensures Escaped(s, true) == Escaped(s, false) + Slashes(Trail(s))
    decreases |s|
  {
    hide Escaped, Trail;
    var n, rest := ByRun(s);
    EscapedForm(n, rest, true);
    EscapedForm(n, rest, false);
    if rest == "" {
      assert s == Slashes(n);
      TrailOfSlashes(n);
      assert Slashes(2 * n) == Slashes(n) + Slashes(n);
    } else {
      var c, more := rest[0], rest[1..];
      assert rest == [c] + more;
      TrailAfter(Slashes(n), c, more);
      EscapedUndone(more);
      var run := Slashes(if c == '"' then 2 * n + 1 else n);
      Assoc([c], Escaped(more, false), Slashes(Trail(s)));
      Assoc(run, [c] + Escaped(more, false), Slashes(Trail(s)));
    }
  }

  /** One more character after a run of backslashes. */
  lemma EscapedSnocRun(n: nat, c: char)
    ensures c == '\\' ==> Escaped(Slashes(n) + [c], true) == Slashes(2 * n + 2)
    ensures c == '"' ==> Escaped(Slashes(n) + [c], true) == Slashes(2 * n + 1) + [c]
    ensures c != '\\' && c != '"' ==> Escaped(Slashes(n) + [c], true) == Slashes(n) + [c]
  {
    hide Escaped;
    if c == '\\' {
      assert Slashes(n) + [c] == Slashes(n + 1) + "";
      EscapedForm(n + 1, "", true);
    } else {
      EscapedEnd();
      assert [c][1..] == "" && [c] + "" == [c];
      EscapedForm(n, [c], true);
    }
  }

  /** The text after one more character: what the loop's body writes. */
  lemma {:induction false} EscapedSnoc(s: string, c: char)
    ensures c == '\\' || c == '"' ==> Escaped(s + [c], true) == Escaped(s, true) + ['\\', c]
    ensures c != '\\' && c != '"' ==> Escaped(s + [c], true) == Escaped(s, false) + [c]
    decreases |s|
  {
    hide Escaped, Slashes;
    var n, rest := ByRun(s);
    EscapedForm(n, rest, true);
    EscapedForm(n, rest, false);
    if rest == "" {
      assert s == Slashes(n);
      EscapedSnocRun(n, c);
      assert Slashes(2 * n) + ['\\', '\\'] == Slashes(2 * n + 2);
      assert Slashes(2 * n) + ['\\', '"'] == Slashes(2 * n + 1) + ['"'];
    } else {
      var d, more := rest[0], rest[1..];
      assert rest == [d] + more;
      EscapedSnocRest(s, n, d, more, c);
      EscapedSnoc(more, c);
      Appended(Slashes(if d == '"' then 2 * n + 1 else n), [d], Escaped(more, true), ['\\', c]);
      Appended(Slashes(if d == '"' then 2 * n + 1 else n), [d], Escaped(more, false), [c]);
    }
  }

  lemma EscapedSnocRest(s: string, n: nat, d: char, more: string, c: char)
    requires d != '\\' && s == Slashes(n) + ([d] + more)
    ensures Escaped(s + [c], true) == Slashes(if d == '"' then 2 * n + 1 else n) + ([d] + Escaped(more + [c], true))
  {
    hide Escaped, Slashes;
    Appended(Slashes(n), [d], more, [c]);
    assert ([d] + (more + [c]))[1..] == more + [c];
    EscapedForm(n, [d] + (more + [c]), true);
  }

  lemma Appended(a: string, b: string, c: string, d: string)
    ensures a + (b + (c + d)) == (a + (b + c)) + d
  {}

  lemma SpawnedReadsBack()
    ensures ReadsBack(Spawned, Split)
  {
    hide Split, Escaped, Quoted;
    forall s: string, tail: string | tail == "" || IsBlank(tail[0])
      ensures Split(Spawned(s) + tail, false, false, "") == Split(tail, true, false, s)
    {
      if NeedsQuotes(s) {
        SplitQuoted(s, tail);
      } else {
        SplitEscaped(s, false, tail, false, false, "");
        assert "" + s == s;
      }
    }
  }

  /** quote_win32, in a buffer of 2 * |s| + 3 characters ended by a NUL. */
  method QuoteWin32(s: string) returns (r: array<char>, end: nat)
    ensures fresh(r) && r.Length == 2 * |s| + 3 && end < r.Length && r[end] == '\0'
    ensures r[..end] == Spawned(s) && Split(r[..end], false, false, "") == [s]
    ensures end > 0 && (r[0] == '"' <==> s == "" || ' ' in s || '\t' in s)
  {
    hide Split, Escaped, Trail, NeedsQuotes;
    r := new char[2 * |s| + 3];
    var o, cbs, quoted := QuoteAll(s, r);
    EscapedUndone(s);
    if quoted {
      o := Enclose(r, o);
    } else {
      o := o - cbs;
    }
    r[o] := '\0';
    end := o;
    SpawnedAlone(s);
    SpawnedFirst(s);
    assert r[..end][0] == r[0];
  }

  /** memmove and the two quotes. */
  method Enclose(r: array<char>, o0: nat) returns (o: nat)
    requires o0 + 2 <= r.Length
    modifies r
    ensures o == o0 + 2 && r[..o] == ['"'] + old(r[..o0]) + ['"']
  {
    forall j | 0 <= j < o0 {
      r[j + 1] := r[j];
    }
    o := o0 + 1;
    r[0], r[o] := '"', '"';
    o := o + 1;
  }

  /** It stands in quotes exactly when it is empty or holds a blank. */
  lemma SpawnedFirst(s: string)
    ensures Spawned(s) != "" && (Spawned(s)[0] == '"' <==> s == "" || ' ' in s || '\t' in s)
  {
    hide Escaped;
    if s != "" {
      var n, rest := ByRun(s);
      EscapedForm(n, rest, false);
    }
  }

  lemma SpawnedAlone(s: string)
    ensures Split(Spawned(s), false, false, "") == [s]
  {
    hide Split, Spawned;
    SpawnedReadsBack();
    ReadsBackAt(Spawned, Split, s, "");
    assert Spawned(s) + "" == Spawned(s);
    SplitEmpty(true, s);
  }

  /** The loop: the text with a closing quote in mind, and its trailing run. */
  method QuoteAll(s: string, r: array<char>) returns (o: nat, cbs: nat, quoted: bool)
    requires r.Length >= 2 * |s|
    modifies r
    ensures o <= 2 * |s| && r[..o] == Escaped(s, true) && cbs == Trail(s) && quoted == NeedsQuotes(s)
  {
    hide Split, Escaped, Trail, Slashes;
    o, cbs, quoted := 0, 0, s == "";
    assert s[..0] == "";
    EscapedEnd();
    TrailEnd();
    for i := 0 to |s|
      invariant o <= 2 * i && r[..o] == Escaped(s[..i], true) && cbs == Trail(s[..i])
      invariant quoted == NeedsQuotes(s[..i]) || i == 0
      invariant i == 0 ==> quoted == (s == "")
    {
      o, cbs := QuoteOne(s, i, r, o, cbs);
      quoted := quoted || s[i] == ' ' || s[i] == '\t';
      assert s[..i + 1] == s[..i] + [s[i]];
    }
    assert s[..|s|] == s;
  }

  /** The loop's body: the escapes of a run of backslashes are undone if no quote follows it. */
  method QuoteOne(s: string, i: nat, r: array<char>, o0: nat, cbs0: nat) returns (o: nat, cbs: nat)
    requires i < |s| && o0 <= 2 * i && r.Length >= 2 * |s|
    requires r[..o0] == Escaped(s[..i], true) && cbs0 == Trail(s[..i])
    modifies r
    ensures o <= 2 * (i + 1) && r[..o] == Escaped(s[..i + 1], true) && cbs == Trail(s[..i + 1])
  {
    hide Escaped;
    var c := s[i];
    assert s[..i + 1] == s[..i] + [c];
    EscapedUndone(s[..i]);
    EscapedSnoc(s[..i], c);
    o := o0;
    if c == '\\' || c == '"' {
      r[o] := '\\';
      o := o + 1;
    } else {
      o := o - cbs0;
    }
    r[o] := c;
    o := o + 1;
    cbs := if c == '\\' then cbs0 + 1 else 0;
    assert s[..i + 1][..i] == s[..i];
    if c == '\\' || c == '"' {
      assert r[..o] == Escaped(s[..i], true) + ['\\', c];
    } else {
      assert r[..o] == Escaped(s[..i], false) + [c];
    }
  }

  lemma TrailEnd()
    ensures Trail("") == 0
  {}

  /** A program name that comes back from its spawned form. */
  predicate PlainSpawned(s: string) {
    '"' !in s && (NeedsQuotes(s) && s != "" ==> s[|s| - 1] != '\\')
  }

  /** Without quotes and blanks the program name is what stands there. */
  lemma {:induction false} ProgramBare(s: string, tail: string, name: string)
    requires '"' !in s && ' ' !in s && '\t' !in s && (tail == "" || IsBlank(tail[0]))
    ensures Program(s + tail, false, name) == (name + s, tail)
  {
    if s == "" {
      assert s + tail == tail && name + s == name;
    } else {
      assert s[0] in s && (s + tail)[1..] == s[1..] + tail;
      ProgramBare(s[1..], tail, name + [s[0]]);
      assert (name + [s[0]]) + s[1..] == name + s;
    }
  }

  /** The spawned program name is read back exactly when it holds no quote and, if it is
      put in quotes, does not end in a backslash. */
  lemma SpawnedProgramReadsBack(s: string, tail: string)
    requires tail == "" || IsBlank(tail[0])
    ensures PlainSpawned(s) ==> Program(Spawned(s) + tail, false, "") == (s, tail)
    ensures !PlainSpawned(s) ==> Program(Spawned(s) + tail, false, "").0 != s
  {
    hide Program, Escaped, Quoted;
    if NeedsQuotes(s) {
      ProgramReadsBack(s, tail);
    } else if '"' in s {
      ProgramHasNoQuote(Spawned(s) + tail, false, "");
    } else {
      EscapedWithoutQuotes(s);
      ProgramBare(s, tail, "");
      assert "" + s == s;
    }
  }

  /** The line that the process start makes of the quoted vector, program name first,
      gives all of it back exactly for such a name. */
  lemma SpawnedLineReadsBack(tool: string, args: seq<string>)
    ensures Started(Joined([tool] + args, Spawned)) == [tool] + args <==> PlainSpawned(tool)
    ensures Split(Joined(args, Spawned), false, false, "") == args
  {
    hide Started, Program, Spawned, Joined, PlainSpawned, Split, Separates, ReadsBack;
    SpawnedReadsBack();
    BothSeparate();
    JoinedReadsBack(args, Spawned, Split);
    SpawnedProgramReadsBack(tool, Behind(args, Spawned));
    StartedBy(tool, args, Spawned);
  }
}
