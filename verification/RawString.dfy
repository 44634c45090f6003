/** Raw string literals: the scanner that looks for the closing delimiter with a
    one-line fallback, and the conversion of the scanned token to its value. */
module RawString {

  // ---- text -----------------------------------------------------------------------

  /** Line ends as the scanner delivers them. */
  function Normal(s: string): (r: string)
    ensures |r| <= |s|
  {
    if s == "" then ""
    else if s[0] != '\r' then [s[0]] + Normal(s[1..])
    else if |s| > 1 && s[1] == '\n' then "\n" + Normal(s[2..])
    else "\n" + Normal(s[1..])
  }

  function LineFeeds(s: string): nat {
    if s == "" then 0 else LineFeeds(s[..|s| - 1]) + if s[|s| - 1] == '\n' then 1 else 0
  }

  lemma {:induction false} LineFeedsCount(s: string)
    ensures LineFeeds(s) == multiset(s)['\n']
  {
    if s != "" {
      LineFeedsCount(s[..|s| - 1]);
      assert s == s[..|s| - 1] + [s[|s| - 1]];
    }
  }

  /** Text without carriage returns stays. */
  lemma {:induction false} NormalKeeps(a: string, x: string)
    requires '\r' !in a
    ensures Normal(a + x) == a + Normal(x)
  {
    if a == "" {
      assert a + x == x && a + Normal(x) == Normal(x);
    } else {
      assert a[0] in a;
      NormalStep(a, x);
      NormalKeeps(a[1..], x);
      assert [a[0]] + (a[1..] + Normal(x)) == a + Normal(x);
    }
  }

  /** A carriage return, with the line feed behind it if there is one, becomes one line feed. */
  lemma NormalReturn(b: string)
    ensures Normal("") == "" && Normal("\r\n" + b) == "\n" + Normal(b)
    ensures b == "" || b[0] != '\n' ==> Normal("\r" + b) == "\n" + Normal(b)
  {
    assert ("\r\n" + b)[2..] == b && ("\r\n" + b)[1] == '\n' && ("\r" + b)[1..] == b;
  }

  lemma NormalStep(a: string, x: string)
    requires a != "" && a[0] != '\r'
    ensures Normal(a + x) == [a[0]] + Normal(a[1..] + x)
  {
    assert (a + x)[1..] == a[1..] + x;
  }

  predicate EndsWith(s: string, x: string) { |x| <= |s| && s[|s| - |x|..] == x }

  /** The first place where x has just been read. */
  predicate FirstEnd(s: string, x: string, e: nat) {
    e <= |s| && EndsWith(s[..e], x) && forall k :: 0 <= k < e ==> !EndsWith(s[..k], x)
  }

  predicate DelimiterChar(c: char) { ' ' < c <= '~' && c != ')' && c != '\\' }

  datatype Opening = At(n: nat) | Bad | Endless

  /** The delimiter before the opening parenthesis, n characters of it read. */
  function FindOpening(text: string, n: nat): (r: Opening)
    requires n <= |text| && n <= 16
    ensures r.At? ==> n <= r.n <= 16 && r.n < |text| && text[r.n] == '('
    ensures r.At? ==> forall i :: n <= i < r.n ==> DelimiterChar(text[i]) && text[i] != '('
    decreases |text| - n
  {
    if n == |text| then Endless
    else if text[n] == '(' then At(n)
    else if n == 16 || !DelimiterChar(text[n]) then Bad
    else FindOpening(text, n + 1)
  }

  /** At most sixteen visible characters, none of them a parenthesis or a backslash. */
  predicate Delimiter(d: string) {
    |d| <= 16 && forall i :: 0 <= i < |d| ==> '!' <= d[i] <= '~' && d[i] != '(' && d[i] != ')' && d[i] != '\\'
  }

  /** Exactly such delimiters are accepted, in front of a parenthesis. */
  lemma OpeningExactly(text: string, n: nat)
    ensures FindOpening(text, 0) == At(n) <==> n < |text| && text[n] == '(' && Delimiter(text[..n])
    ensures FindOpening(text, 0) == Endless <==> Delimiter(text)
  {
    assert text[..0] == "";
    OpeningFrom(text, 0, n);
  }

  lemma {:induction false} OpeningFrom(text: string, m: nat, n: nat)
    requires m <= |text| && Delimiter(text[..m])
    ensures FindOpening(text, m) == At(n) <==> m <= n < |text| && text[n] == '(' && Delimiter(text[..n])
    ensures FindOpening(text, m) == Endless <==> Delimiter(text)
    decreases |text| - m
  {
    if m == |text| {
      assert text[..m] == text;
    } else if text[m] == '(' {
      NotBeyond(text, m, n);
    } else if m == 16 || !DelimiterChar(text[m]) {
      NotBeyond(text, m, n);
    } else {
      assert text[..m + 1] == text[..m] + [text[m]];
      OpeningFrom(text, m + 1, n);
    }
  }

  lemma NotBeyond(text: string, m: nat, n: nat)
    requires m < |text| && (text[m] == '(' || m == 16 || !DelimiterChar(text[m]))
    ensures m < n <= |text| ==> !Delimiter(text[..n])
    ensures !Delimiter(text)
  {
    if m < n <= |text| {
      assert text[..n][m] == text[m];
    }
  }

  function Closing(d: string): string { ")" + d + "\"" }

  // ---- the matcher --------------------------------------------------------------------

  /** One character: extend the match or start again at a parenthesis. */
  function Match(matched: nat, d: string, c: char): (m: nat)
    requires matched < |d| + 2
    ensures m <= |d| + 2
  {
    if matched > 0 && c == (if matched <= |d| then d[matched - 1] else '"') then matched + 1
    else if c == ')' then 1 else 0
  }

  /** The match is as long as it can be. */
  ghost predicate Longest(seen: string, d: string, matched: nat) {
    && matched <= |d| + 2
    && EndsWith(seen, Closing(d)[..matched])
    && forall k :: matched < k <= |d| + 2 ==> !EndsWith(seen, Closing(d)[..k])
  }

  lemma EndsWithSnoc(s: string, c: char, x: string)
    ensures x != "" ==> (EndsWith(s + [c], x) <==> x[|x| - 1] == c && EndsWith(s, x[..|x| - 1]))
  {
    if x != "" && |x| <= |s| + 1 {
      var t := s + [c];
      assert t[|t| - |x|..] == s[|s| - (|x| - 1)..] + [c];
      assert x == x[..|x| - 1] + [x[|x| - 1]];
    }
  }

  lemma Extend(seen: string, c: char, x: string, k: nat)
    requires 0 < k <= |x|
    ensures EndsWith(seen + [c], x[..k]) <==> x[k - 1] == c && EndsWith(seen, x[..k - 1])
  {
    EndsWithSnoc(seen, c, x[..k]);
    assert x[..k][..k - 1] == x[..k - 1];
  }

  /** Restarting loses nothing: a shorter match that is still alive waits for the
      same character as the longest one. */
  ghost predicate Restarts(d: string) {
    forall k, m :: 0 < k < m < |d| + 2 && EndsWith(Closing(d)[..m], Closing(d)[..k]) ==> Closing(d)[k] == Closing(d)[m]
  }

  /** Without a closing parenthesis in the delimiter no shorter match is ever alive. */
  lemma NoOverlap(d: string)
    requires ')' !in d
    ensures Restarts(d)
  {
    var x := Closing(d);
    forall k, m | 0 < k < m < |d| + 2
      ensures !EndsWith(x[..m], x[..k])
    {
      assert x[..k][0] == ')' && x[m - k] != ')';
      assert x[..m][m - k..][0] == x[m - k];
    }
  }

  /** Two matches of one text: the shorter is the end of the longer. */
  lemma EndOfEnd(seen: string, a: string, b: string)
    requires EndsWith(seen, a) && EndsWith(seen, b) && |b| <= |a|
    ensures EndsWith(a, b)
  {
    assert seen[|seen| - |b|..] == seen[|seen| - |a|..][|a| - |b|..];
  }

  /** The fallback keeps the match as long as possible. */
  lemma MatchIsLongest(seen: string, d: string, matched: nat, c: char)
    requires Restarts(d) && matched < |d| + 2 && Longest(seen, d, matched)
    ensures Longest(seen + [c], d, Match(matched, d, c))
  {
    hide EndsWith;
    var x, m := Closing(d), Match(matched, d, c);
    assert x[matched] == if matched == 0 then ')' else if matched <= |d| then d[matched - 1] else '"';
    assert x[0] == ')';
    forall k | m < k <= |d| + 2
      ensures !EndsWith(seen + [c], x[..k])
    {
      Extend(seen, c, x, k);
      if 1 < k <= matched && EndsWith(seen, x[..k - 1]) {
        EndOfEnd(seen, x[..matched], x[..k - 1]);
      } else if k > matched + 1 {
        assert !EndsWith(seen, x[..k - 1]);
      }
    }
    if m > 0 {
      Extend(seen, c, x, m);
    }
    EndsWithNothing(seen + [c]);
    EndsWithNothing(seen);
    assert x[..0] == "";
  }

  lemma EndsWithNothing(s: string)
    ensures EndsWith(s, "")
  {}

  function MatchAll(d: string, text: string): nat
    ensures MatchAll(d, text) <= |d| + 2
  {
    if text == "" then 0
    else
      var m := MatchAll(d, text[..|text| - 1]);
      if m == |d| + 2 then m else Match(m, d, text[|text| - 1])
  }

  lemma MatchAllSnoc(d: string, text: string, c: char)
    ensures MatchAll(d, text + [c]) == if MatchAll(d, text) == |d| + 2 then |d| + 2 else Match(MatchAll(d, text), d, c)
  {
    assert (text + [c])[..|text|] == text;
  }

  /** The closing delimiter is somewhere in the text. */
  ghost predicate Occurs(text: string, x: string) {
    exists e :: 0 <= e <= |text| && EndsWith(text[..e], x)
  }

  lemma OccursSnoc(text: string, c: char, x: string)
    ensures Occurs(text + [c], x) <==> Occurs(text, x) || EndsWith(text + [c], x)
  {
    var s := text + [c];
    assert s[..|s|] == s;
    assert forall e :: 0 <= e <= |text| ==> s[..e] == text[..e];
  }

  /** Where restarting loses nothing the matcher finds the end exactly when it is there. */
  lemma {:induction false} MatcherIsRight(d: string, text: string)
    requires Restarts(d)
    ensures MatchAll(d, text) == |d| + 2 <==> Occurs(text, Closing(d))
    ensures MatchAll(d, text) < |d| + 2 ==> Longest(text, d, MatchAll(d, text))
  {
    hide Restarts, Longest, EndsWith, Occurs;
    if text == "" {
      LongestNone(d);
      OccursNone(d);
    } else {
      var p, c := text[..|text| - 1], text[|text| - 1];
      assert text == p + [c];
      MatcherIsRight(d, p);
      OccursSnoc(p, c, Closing(d));
      if MatchAll(d, p) < |d| + 2 {
        MatchIsLongest(p, d, MatchAll(d, p), c);
        LongestIsEnd(text, d, Match(MatchAll(d, p), d, c));
      }
    }
  }

  lemma OccursNone(d: string)
    ensures !Occurs("", Closing(d))
  {}

  lemma {:induction false} MatchesItself(d: string, m: nat)
    requires m <= |d| + 2
    ensures MatchAll(d, Closing(d)[..m]) == m
  {
    if m > 0 {
      var x := Closing(d);
      MatchesItself(d, m - 1);
      assert x[..m] == x[..m - 1] + [x[m - 1]];
      MatchAllSnoc(d, x[..m - 1], x[m - 1]);
    }
  }

  lemma {:induction false} SlowGrowth(d: string, text: string, more: string)
    requires MatchAll(d, text) + |more| < |d| + 2
    ensures MatchAll(d, text + more) <= MatchAll(d, text) + |more|
  {
    if more == "" {
      assert text + more == text;
    } else {
      var n := |more| - 1;
      SlowGrowth(d, text, more[..n]);
      assert text + more == (text + more[..n]) + [more[n]];
      MatchAllSnoc(d, text + more[..n], more[n]);
    }
  }

  /** The shorter match goes on where the longer one is left. */
  lemma ShorterGoesOn(x: string, k: nat, m: nat)
    requires k <= m <= |x| && EndsWith(x[..m], x[..k])
    ensures EndsWith(x[..m] + x[k..], x)
  {
    var p := x[..m];
    assert (p + x[k..])[m - k..] == p[m - k..] + x[k..] == x;
  }

  lemma LeavesTheMatch(d: string, k: nat, m: nat)
    requires 0 < k < m < |d| + 2 && Closing(d)[k] != Closing(d)[m]
    ensures MatchAll(d, Closing(d)[..m] + [Closing(d)[k]]) <= 1
  {
    hide MatchAll;
    var x := Closing(d);
    MatchesItself(d, m);
    MatchAllSnoc(d, x[..m], x[k]);
    assert x[m] == if m <= |d| then d[m - 1] else '"';
  }

  /** Where it loses something there is a text that ends in the closing delimiter
      and is not recognised: the longer match, left by the shorter one's way. */
  lemma MatcherMisses(d: string) returns (text: string)
    requires !Restarts(d)
    ensures EndsWith(text, Closing(d)) && MatchAll(d, text) < |d| + 2
  {
    hide MatchAll, EndsWith;
    var x := Closing(d);
    var k, m :| 0 < k < m < |d| + 2 && EndsWith(x[..m], x[..k]) && x[k] != x[m];
    text := x[..m] + x[k..];
    ShorterGoesOn(x, k, m);
    LeavesTheMatch(d, k, m);
    SlowGrowth(d, x[..m] + [x[k]], x[k + 1..]);
    assert x[k..] == [x[k]] + x[k + 1..];
    assert text == x[..m] + [x[k]] + x[k + 1..];
  }

  /** The one-line fallback finds the end in every text exactly for these delimiters. */
  lemma FallbackIsRightIff(d: string)
    ensures (forall text: string :: MatchAll(d, text) == |d| + 2 <==> Occurs(text, Closing(d))) <==> Restarts(d)
  {
    hide Restarts, MatchAll;
    if Restarts(d) {
      forall text: string ensures MatchAll(d, text) == |d| + 2 <==> Occurs(text, Closing(d)) {
        MatcherIsRight(d, text);
      }
    } else {
      var text := MatcherMisses(d);
      assert text[..|text|] == text;
    }
  }

  /** A delimiter with a parenthesis for which the fallback misses the end. */
  lemma FallbackNeedsTheExclusion()
    ensures EndsWith(")))\"", Closing(")")) && MatchAll(")", ")))\"") != 3
  {
    assert ")))\""[..3] == ")))" && ")))"[..2] == "))" && "))"[..1] == ")" && ")"[..0] == "";
    assert MatchAll(")", ")") == 1;
    assert MatchAll(")", "))") == 2;
    assert MatchAll(")", ")))") == 1;
    assert ")))\""[1..] == "))\"" == Closing(")");
  }

  // ---- the scanner ------------------------------------------------------------------------

  datatype Scan = Scanned(str: string, q: nat, lines: nat) | BadDelimiter | NoOpening | Unterminated

  /** What the scanner must do with the text after the opening quote. */
  ghost predicate ScanOk(text: string, r: Scan) {
    match FindOpening(text, 0)
    case Bad => r == BadDelimiter
    case Endless => r == NoOpening
    case At(n) =>
      var d, body := text[..n], Normal(text[n + 1..]);
      match r
      case Scanned(str, q, lines) =>
        var e := |str| - n - 1;
        && 0 <= e <= |body| && q <= |text|
        && str == d + "(" + body[..e] && Normal(text[q..]) == body[e..]
        && FirstEnd(body, Closing(d), e) && lines == LineFeeds(body[..e])
      case Unterminated => forall k :: 0 <= k <= |body| ==> !EndsWith(body[..k], Closing(d))
      case _ => false
  }

  /** parse_pp_raw_string */
  method ParsePpRawString(text: string) returns (r: Scan)
    ensures ScanOk(text, r)
  {
    var length := 0;
    while length < |text| && text[length] != '('
      invariant length <= |text| && length <= 16 && FindOpening(text, length) == FindOpening(text, 0)
    {
      var c := text[length];
      if length == 16 || c <= ' ' || c == ')' || c == '\\' || c > '~' {
        return BadDelimiter;
      }
      length := length + 1;
    }
    if length == |text| {
      return NoOpening;
    }
    r := ScanBody(text, length);
  }

  method ScanBody(text: string, length: nat) returns (r: Scan)
    requires FindOpening(text, 0) == At(length)
    ensures ScanOk(text, r)
  {
    hide Match, Longest, EndsWith, Normal, Restarts;
    var d := text[..length];
    var str, q := d + "(", length + 1;
    var matched: nat, lines := 0, 0;
    ghost var body, seen := Normal(text[q..]), "";
    LongestNone(d);
    NoOverlap(d);
    assert body[..0] == "" && body[0..] == body && str + "" == str;
    while q < |text|
      invariant length < q <= |text| && matched < |d| + 2
      invariant |seen| <= |body| && seen == body[..|seen|] && Normal(text[q..]) == body[|seen|..]
      invariant str == d + "(" + seen && Longest(seen, d, matched) && lines == LineFeeds(seen)
      invariant forall k :: 0 <= k <= |seen| ==> !EndsWith(body[..k], Closing(d))
    {
      var c;
      ghost var rest := body[|seen|..];
      c, q := NextChar(text, q);
      assert rest[1..] == body[|seen| + 1..];
      if c == '\n' {
        lines := lines + 1;
      }
      assert (str + [c]) == d + "(" + (seen + [c]);
      str := str + [c];
      MatchIsLongest(seen, d, matched, c);
      matched := Match(matched, d, c);
      assert (seen + [c])[..|seen|] == seen;
      seen := seen + [c];
      assert seen == body[..|seen|];
      LongestIsEnd(seen, d, matched);
      if matched == length + 2 {
        return Scanned(str, q, lines);
      }
    }
    NormalNone();
    assert text[q..] == "";
    r := Unterminated;
  }

  lemma NormalNone()
    ensures Normal("") == ""
  {}

  lemma LongestNone(d: string)
    ensures Longest("", d, 0) && !EndsWith("", Closing(d))
  {
    assert Closing(d)[..0] == "";
  }

  lemma LongestIsEnd(seen: string, d: string, matched: nat)
    requires Longest(seen, d, matched)
    ensures EndsWith(seen, Closing(d)) <==> matched == |d| + 2
  {
    assert Closing(d)[..|d| + 2] == Closing(d);
  }

  /** One character, a line end counting as one. */
  method NextChar(text: string, q0: nat) returns (c: char, q: nat)
    requires q0 < |text|
    ensures q0 < q <= |text| && Normal(text[q0..]) == [c] + Normal(text[q..])
  {
    c, q := text[q0], q0 + 1;
    assert text[q0..][1..] == text[q..];
    if c == '\r' {
      if q < |text| && text[q] == '\n' {
        assert text[q0..][2..] == text[q + 1..];
        q := q + 1;
      }
      c := '\n';
    }
  }

  // ---- from the token to the literal's value --------------------------------------------------

  function Literal(d: string, content: string): string { d + "(" + content + Closing(d) }

  /** A scanned token is a literal whose content does not hold the closing delimiter. */
  lemma ScannedIsLiteral(text: string, r: Scan)
    requires ScanOk(text, r) && r.Scanned?
    ensures var d := text[..FindOpening(text, 0).n];
            Delimiter(d) && |r.str| >= 2 * |d| + 3 && r.str == Literal(d, r.str[|d| + 1..|r.str| - |d| - 2])
  {
    hide Normal, FindOpening, LineFeeds;
    var d := text[..FindOpening(text, 0).n];
    var body := Normal(text[|d| + 1..]);
    EndIsClosing(d, body[..|r.str| - |d| - 1], r.str);
  }

  lemma EndIsClosing(d: string, seen: string, str: string)
    requires str == d + "(" + seen && EndsWith(seen, Closing(d))
    ensures |str| >= 2 * |d| + 3 && str == Literal(d, str[|d| + 1..|str| - |d| - 2])
  {
    var content := seen[..|seen| - |d| - 2];
    assert seen == content + Closing(d);
    assert str[|d| + 1..|str| - |d| - 2] == content;
    assert d + "(" + (content + Closing(d)) == Literal(d, content);
  }

  datatype Body = Content(prefix: string, text: string) | Malformed | NotRaw

  predicate IsPrefix(s: string) { s == "" || s == "L" || s == "u" || s == "U" || s == "u8" }

  function CharAt(s: string, i: nat): char { if i < |s| then s[i] else '\0' }

  /** The token s read as a raw literal with this prefix, delimiter and content. */
  predicate IsRaw(s: string, prefix: string, d: string, content: string) {
    IsPrefix(prefix) && '(' !in d && s == prefix + "R\"" + Literal(d, content)
  }

  /** Every prefix, delimiter without an opening parenthesis and content makes one. */
  lemma RawForm(prefix: string, d: string, content: string)
    requires prefix == "" || prefix == "L" || prefix == "u" || prefix == "U" || prefix == "u8"
    requires '(' !in d
    ensures IsRaw(prefix + "R\"" + (d + "(" + content + ")" + d + "\""), prefix, d, content)
  {
    assert d + "(" + content + ")" + d + "\"" == d + "(" + content + (")" + d + "\"");
  }

  /** The length of the encoding prefix. */
  method PrefixLength(s: string) returns (p: nat)
    ensures p <= |s|
    ensures forall prefix: string, d: string, content: string :: IsRaw(s, prefix, d, content) ==> prefix == s[..p]
  {
    p := 0;
    var c := CharAt(s, 0);
    if c == 'L' || c == 'u' || c == 'U' {
      if c == 'u' && CharAt(s, 1) == '8' {
        p := p + 1;
      }
      p := p + 1;
    }
    forall prefix: string, d: string, content: string | IsRaw(s, prefix, d, content)
      ensures prefix == s[..p]
    {
      assert s[|prefix|] == 'R' && s[..|prefix|] == prefix;
      assert |prefix| > 0 ==> s[0] == prefix[0];
    }
  }

  /** The token made of a scanned literal is read with that delimiter and content. */
  lemma ScannedIsRaw(text: string, r: Scan, prefix: string)
    requires ScanOk(text, r) && r.Scanned? && IsPrefix(prefix)
    ensures var d := text[..FindOpening(text, 0).n];
            |r.str| >= 2 * |d| + 3 && IsRaw(prefix + "R\"" + r.str, prefix, d, r.str[|d| + 1..|r.str| - |d| - 2])
  {
    hide ScanOk, Literal;
    ScannedIsLiteral(text, r);
  }

  /** The first half of parse_string: the content between the delimiters. */
  method RawBody(s: string) returns (r: Body)
    ensures forall prefix: string, d: string, content: string :: IsRaw(s, prefix, d, content) ==> r == Content(prefix, content)
  {
    hide Literal, IsPrefix;
    var p := PrefixLength(s);
    var len: int := |s| - p;
    var prefix := s[..p];
    forall x: string, d: string, content: string | IsRaw(s, x, d, content)
      ensures CharAt(s, p) == 'R' && p + 2 <= |s|
    {
      assert s[|x|] == 'R';
    }
    if CharAt(s, p) != 'R' {
      return NotRaw;
    }
    p, len := p + 2, len - 1;
    len := len - 2;
    if p > |s| { // nothing after the R: never a string token
      return Malformed;
    }
    var opening := p;
    while opening < |s| && s[opening] != '('
      invariant p <= opening <= |s| && forall i :: p <= i < opening ==> s[i] != '('
    {
      opening := opening + 1;
    }
    var length := opening - p;
    len := len - (2 * length + 2);
    forall x: string, d: string, content: string | IsRaw(s, x, d, content)
      ensures opening < |s| && len == |content| && opening + 1 + len <= |s| && s[opening + 1..opening + 1 + len] == content
    {
      OpeningOf(s, x, d, content, opening);
    }
    if opening == |s| || len < 0 {
      return Malformed;
    }
    p := opening + 1;
    r := Content(prefix, s[p..p + len]);
  }

  lemma OpeningOf(s: string, prefix: string, d: string, content: string, opening: nat)
    requires s == prefix + "R\"" + Literal(d, content) && '(' !in d
    requires |prefix| + 2 <= opening <= |s| && (opening < |s| ==> s[opening] == '(')
    requires forall i :: |prefix| + 2 <= i < opening ==> s[i] != '('
    ensures opening == |prefix| + 2 + |d| && |s| == opening + 1 + |content| + |d| + 2
    ensures s[opening + 1..opening + 1 + |content|] == content
  {
    var p := |prefix| + 2;
    assert s[p + |d|] == '(';
    assert forall i :: p <= i < p + |d| ==> s[i] == d[i - p];
  }

  /** Every backslash doubled. */
  function Doubled(s: string): string {
    if s == "" then "" else (if s[0] == '\\' then "\\\\" else [s[0]]) + Doubled(s[1..])
  }

  lemma DoubledNone()
    ensures Doubled("") == ""
  {}

  lemma DoubledStep(s: string, i: nat, r: string)
    requires i < |s|
    ensures r + Doubled(s[i..]) == (if s[i] == '\\' then r + "\\" else r) + [s[i]] + Doubled(s[i + 1..])
  {
    hide Doubled;
    var more := Doubled(s[i + 1..]);
    DoubledHead(s[i..]);
    assert s[i..][1..] == s[i + 1..];
    if s[i] == '\\' {
      assert r + ("\\\\" + more) == (r + "\\") + "\\" + more;
    } else {
      assert r + ([s[i]] + more) == r + [s[i]] + more;
    }
  }

  lemma DoubledHead(s: string)
    requires s != ""
    ensures Doubled(s) == (if s[0] == '\\' then "\\\\" else [s[0]]) + Doubled(s[1..])
  {}

  method Double(s: string) returns (r: string)
    ensures r == Doubled(s)
  {
    hide Doubled;
    r := "";
    DoubledNone();
    assert s[0..] == s && "" + Doubled(s) == Doubled(s);
    for i := 0 to |s|
      invariant r + Doubled(s[i..]) == Doubled(s)
    {
      DoubledStep(s, i, r);
      if s[i] == '\\' {
        r := r + "\\";
      }
      r := r + [s[i]];
    }
    assert s[|s|..] == "" && r + "" == r;
  }

  // ---- escapes and code units ---------------------------------------------------------------------

  /** The code units of one code point, for units of 1, 2 or 4 bytes. */
  function Emit(c: int, width: nat): seq<int> {
    if width == 2 && c >= 0x10000 then [(c - 0x10000) / 0x400 + 0xD800, (c - 0x10000) % 0x400 + 0xDC00] else [c]
  }

  predicate Within(s: string, i: nat, low: int, high: int) { low <= CharAt(s, i) as int <= high }

  /** A UTF-8 sequence at the front, and its length; U+FFFD for an ill-formed one. */
  function DecodeUtf8(s: string): (r: (int, nat))
    requires s != ""
    ensures r.1 > 0
  {
    var c := s[0] as int;
    if c < 0xC2 || c > 0xF4 then (0xFFFD, 1)
    else
      var cont := if c <= 0xDF then 1 else if c <= 0xEF then 2 else 3;
      var low := if c == 0xE0 then 0xA0 else if c == 0xF0 then 0x90 else 0x80;
      var high := if c == 0xED then 0x9F else if c == 0xF4 then 0x8F else 0xBF;
      var n0 := if cont == 1 then c % 0x20 else if cont == 2 then c % 0x10 else c % 8;
      if !Within(s, 1, low, high) then (0xFFFD, 1)
      else
        var n1 := n0 * 64 + CharAt(s, 1) as int % 64;
        if cont == 1 then (n1, 2)
        else if !Within(s, 2, 0x80, 0xBF) then (0xFFFD, 2)
        else
          var n2 := n1 * 64 + CharAt(s, 2) as int % 64;
          if cont == 2 then (n2, 3)
          else if !Within(s, 3, 0x80, 0xBF) then (0xFFFD, 3)
          else (n2 * 64 + CharAt(s, 3) as int % 64, 4)
  }

  /** Escapes other than the doubled backslash: an arbitrary function to units and length. */
  type Escapes = string -> (seq<int>, nat)

  /** The units of the character or escape at the front, and its length. */
  function One(s: string, width: nat, other: Escapes): (seq<int>, nat)
    requires s != ""
  {
    if s[0] == '\\' && CharAt(s, 1) == '\\' then (Emit('\\' as int, width), 2)
    else if s[0] == '\\' then other(s)
    else if width > 1 && s[0] as int >= 0x80 then (Emit(DecodeUtf8(s).0, width), DecodeUtf8(s).1)
    else (Emit(s[0] as int, width), 1)
  }

  /** parse_escape_string, without the terminator it appends. */
  function Units(s: string, width: nat, other: Escapes): seq<int>
    decreases |s|
  {
    if s == "" || s[0] == '\0' then []
    else
      var (units, n) := One(s, width, other);
      units + Units(Skip(s, n), width, other)
  }

  /** At least one character further, and not past the end. */
  function Skip(s: string, n: nat): (r: string)
    requires s != ""
    ensures |r| < |s|
  {
    if n == 0 then s[1..] else if n < |s| then s[n..] else ""
  }

  // ---- well-formed contents ------------------------------------------------------------------------

  predicate Scalar(c: int) { 0 < c < 0xD800 || 0xE000 <= c < 0x110000 }

  function Byte(n: int): char
    requires 0 <= n < 0x100
  {
    n as char
  }

  /** The UTF-8 encoding form of a code point. */
  function Utf8One(c: int): (r: string)
    requires Scalar(c)
    ensures r != ""
  {
    if c < 0x80 then [Byte(c)]
    else if c < 0x800 then [Byte(0xC0 + c / 64), Byte(0x80 + c % 64)]
    else if c < 0x10000 then [Byte(0xE0 + c / 0x1000), Byte(0x80 + c / 64 % 64), Byte(0x80 + c % 64)]
    else [Byte(0xF0 + c / 0x40000), Byte(0x80 + c / 0x1000 % 64), Byte(0x80 + c / 64 % 64), Byte(0x80 + c % 64)]
  }

  function Utf8(cs: seq<int>): string
    requires forall c :: c in cs ==> Scalar(c)
  {
    if cs == [] then "" else Utf8One(cs[0]) + Utf8(cs[1..])
  }

  /** The value the literal should have: the bytes themselves, or the code points in
      units of 2 or 4 bytes. */
  function ValueOf(cs: seq<int>, width: nat): seq<int>
    requires forall c :: c in cs ==> Scalar(c)
  {
    if cs == [] then []
    else (if width > 1 then Emit(cs[0], width) else Bytes(Utf8One(cs[0]))) + ValueOf(cs[1..], width)
  }

  /** The code points that 16-bit units write. */
  function FromUtf16(u: seq<int>): seq<int> {
    if u == [] then []
    else if 0xD800 <= u[0] < 0xDC00 && |u| > 1 && 0xDC00 <= u[1] < 0xE000 then
      [0x10000 + (u[0] - 0xD800) * 0x400 + (u[1] - 0xDC00)] + FromUtf16(u[2..])
    else [u[0]] + FromUtf16(u[1..])
  }

  /** The value means the text: its bytes, its code points, or its code points in UTF-16. */
  lemma {:induction false} ValueMeans(cs: seq<int>, more: seq<int>)
    requires forall c :: c in cs ==> Scalar(c)
    ensures ValueOf(cs, 1) == Bytes(Utf8(cs)) && ValueOf(cs, 4) == cs
    ensures FromUtf16(ValueOf(cs, 2) + more) == cs + FromUtf16(more)
    ensures forall u :: u in ValueOf(cs, 2) ==> 0 <= u < 0x10000
  {
    hide Utf8One, FromUtf16;
    if cs == [] {
      assert ValueOf(cs, 2) + more == more && cs + FromUtf16(more) == FromUtf16(more);
      assert Bytes("") == [];
    } else {
      var c, rest := cs[0], cs[1..];
      assert cs == [c] + rest && c in cs;
      ValueMeans(rest, more);
      BytesAppend(Utf8One(c), Utf8(rest));
      assert ValueOf(cs, 2) + more == Emit(c, 2) + (ValueOf(rest, 2) + more);
      EmitMeans(c, ValueOf(rest, 2) + more);
      assert [c] + (rest + FromUtf16(more)) == cs + FromUtf16(more);
    }
  }

  lemma EmitMeans(c: int, more: seq<int>)
    requires Scalar(c)
    ensures FromUtf16(Emit(c, 2) + more) == [c] + FromUtf16(more) && forall u :: u in Emit(c, 2) ==> 0 <= u < 0x10000
  {
    var u := Emit(c, 2);
    if c >= 0x10000 {
      var d := c - 0x10000;
      assert d == d / 0x400 * 0x400 + d % 0x400;
      assert (u + more)[2..] == more;
    } else {
      assert (u + more)[1..] == more;
    }
  }

  lemma BytesAppend(a: string, b: string)
    ensures Bytes(a + b) == Bytes(a) + Bytes(b)
  {}

  function Bytes(s: string): (r: seq<int>)
    ensures |r| == |s|
  {
    seq(|s|, i requires 0 <= i < |s| => s[i] as int)
  }

  lemma DecodeEncoded(c: int, tail: string)
    requires Scalar(c) && c >= 0x80
    ensures DecodeUtf8(Utf8One(c) + tail) == (c, |Utf8One(c)|)
  {
    hide DecodeUtf8;
    var s := Utf8One(c) + tail;
    if c < 0x800 {
      Decode2(s, c / 64, c % 64);
    } else if c < 0x10000 {
      ThreeBytes(c);
      Decode3(s, c / 0x1000, c / 64 % 64, c % 64);
    } else {
      FourBytes(c);
      Decode4(s, c / 0x40000, c / 0x1000 % 64, c / 64 % 64, c % 64);
    }
  }

  lemma Decode2(s: string, a: int, b: int)
    requires 2 <= a < 0x20 && 0 <= b < 64
    requires |s| >= 2 && s[0] as int == 0xC0 + a && s[1] as int == 0x80 + b
    ensures DecodeUtf8(s) == (a * 64 + b, 2)
  {}

  lemma Decode3(s: string, a: int, b: int, c: int)
    requires 0 <= a < 0x10 && 0 <= b < 64 && 0 <= c < 64 && (a == 0 ==> b >= 0x20) && (a == 0xD ==> b < 0x20)
    requires |s| >= 3 && s[0] as int == 0xE0 + a && s[1] as int == 0x80 + b && s[2] as int == 0x80 + c
    ensures DecodeUtf8(s) == ((a * 64 + b) * 64 + c, 3)
  {}

  lemma Decode4(s: string, a: int, b: int, c: int, d: int)
    requires 0 <= a <= 4 && 0 <= b < 64 && 0 <= c < 64 && 0 <= d < 64 && (a == 0 ==> b >= 0x10) && (a == 4 ==> b < 0x10)
    requires |s| >= 4 && s[0] as int == 0xF0 + a && s[1] as int == 0x80 + b
    requires s[2] as int == 0x80 + c && s[3] as int == 0x80 + d
    ensures DecodeUtf8(s) == (((a * 64 + b) * 64 + c) * 64 + d, 4)
  {}

  lemma ThreeBytes(c: int)
    requires 0x800 <= c < 0x10000 && Scalar(c)
    ensures (c / 0x1000 * 64 + c / 64 % 64) * 64 + c % 64 == c
    ensures c / 0x1000 == 0 ==> c / 64 % 64 >= 0x20
    ensures c / 0x1000 == 0xD ==> c / 64 % 64 < 0x20
  {
    assert c / 0x1000 == c / 64 / 64;
  }

  lemma FourBytes(c: int)
    requires 0x10000 <= c < 0x110000
    ensures ((c / 0x40000 * 64 + c / 0x1000 % 64) * 64 + c / 64 % 64) * 64 + c % 64 == c
    ensures c / 0x40000 == 0 ==> c / 0x1000 % 64 >= 0x10
    ensures c / 0x40000 == 4 ==> c / 0x1000 % 64 < 0x10
    ensures c / 0x40000 <= 4
  {
    assert c / 0x1000 == c / 64 / 64 && c / 0x40000 == c / 0x1000 / 64;
  }

  /** The first k characters begin some encoded code point. */
  ghost predicate Begins(s: string, k: nat) {
    exists c: int :: Scalar(c) && c >= 0x80 && BeginsWith(s, c, k)
  }

  predicate BeginsWith(s: string, c: int, k: nat)
    requires Scalar(c)
  {
    k <= |s| && k <= |Utf8One(c)| && s[..k] == Utf8One(c)[..k]
  }

  /** The bytes that an encoded code point can have. */
  lemma EncodedBytes(c: int)
    requires Scalar(c) && c >= 0x80
    ensures var u, lead := Utf8One(c), Utf8One(c)[0] as int;
            && 0xC2 <= lead <= 0xF4 && |u| == (if lead <= 0xDF then 2 else if lead <= 0xEF then 3 else 4)
            && SecondOk(lead, u[1] as int) && forall i :: 1 <= i < |u| ==> 0x80 <= u[i] as int <= 0xBF
  {
    if 0x800 <= c < 0x10000 {
      ThreeBytes(c);
    } else if c >= 0x10000 {
      FourBytes(c);
    }
  }

  /** The second byte behind each leading byte (section 3.9 of the Unicode Standard, version 10). */
  predicate SecondOk(lead: int, b: int) {
    && 0x80 <= b <= 0xBF && (lead == 0xE0 ==> b >= 0xA0) && (lead == 0xED ==> b <= 0x9F)
    && (lead == 0xF0 ==> b >= 0x90) && (lead == 0xF4 ==> b <= 0x8F)
  }

  lemma NotBegun(s: string, k: nat)
    requires 0 < k <= |s|
    requires var lead := s[0] as int;
             || lead < 0xC2 || lead > 0xF4 || k > (if lead <= 0xDF then 2 else if lead <= 0xEF then 3 else 4)
             || (k >= 2 && !SecondOk(lead, s[1] as int)) || (exists i :: 1 <= i < k && !(0x80 <= s[i] as int <= 0xBF))
    ensures !Begins(s, k)
  {
    forall c: int | Scalar(c) && c >= 0x80 ensures !BeginsWith(s, c, k) {
      EncodedBytes(c);
      SameBytes(s, c, k);
      hide Utf8One, BeginsWith;
    }
  }

  lemma SameBytes(s: string, c: int, k: nat)
    requires Scalar(c)
    ensures BeginsWith(s, c, k) ==> k <= |s| && k <= |Utf8One(c)| && forall i :: 0 <= i < k ==> s[i] == Utf8One(c)[i]
  {
    if BeginsWith(s, c, k) {
      forall i | 0 <= i < k ensures s[i] == Utf8One(c)[i] {
        assert s[..k][i] == Utf8One(c)[..k][i];
      }
    }
  }

  lemma FourParts(a: int, b: int, d: int, e: int)
    requires 0 <= a <= 4 && 0 <= b < 64 && 0 <= d < 64 && 0 <= e < 64 && (a == 0 ==> b >= 16) && (a == 4 ==> b < 16)
    ensures var c := ((a * 64 + b) * 64 + d) * 64 + e;
            && 0x10000 <= c < 0x110000
            && c / 0x40000 == a && c / 0x1000 % 64 == b && c / 64 % 64 == d && c % 64 == e
  {
    var t := (a * 64 + b) * 64 + d;
    var c := t * 64 + e;
    assert c / 64 == t && c % 64 == e;
    assert t / 64 == a * 64 + b && t % 64 == d;
    assert c / 0x1000 == t / 64 && c / 0x40000 == t / 64 / 64;
  }

  /** A code point of three bytes with these first two, and one of four. */
  lemma BegunThree(s: string)
    requires |s| >= 2 && 0xE0 <= s[0] as int <= 0xEF && SecondOk(s[0] as int, s[1] as int)
    ensures Begins(s, 2)
  {
    var a, b := s[0] as int - 0xE0, s[1] as int - 0x80;
    var c := (a * 64 + b) * 64 + 1;
    assert c / 0x1000 == a && c / 64 % 64 == b;
    assert Utf8One(c)[..2] == [Byte(0xE0 + a), Byte(0x80 + b)] == s[..2];
    assert BeginsWith(s, c, 2);
  }

  lemma BegunFour(s: string, k: nat)
    requires k in {2, 3} && |s| >= k && 0xF0 <= s[0] as int <= 0xF4 && SecondOk(s[0] as int, s[1] as int)
    requires k == 3 ==> 0x80 <= s[2] as int <= 0xBF
    ensures Begins(s, k)
  {
    var a, b := s[0] as int - 0xF0, s[1] as int - 0x80;
    var d := if k == 3 then s[2] as int - 0x80 else 0;
    var c := ((a * 64 + b) * 64 + d) * 64 + 1;
    FourParts(a, b, d, 1);
    assert Utf8One(c)[..3] == [Byte(0xF0 + a), Byte(0x80 + b), Byte(0x80 + d)];
    assert s[..k] == Utf8One(c)[..k];
    assert BeginsWith(s, c, k);
  }

  /** Text that does not begin with an encoded code point gives U+FFFD and takes the longest
      part that could have begun one, or a single byte. */
  lemma IllFormedPart(s: string)
    requires s != "" && s[0] as int >= 0x80
    requires forall c: int :: Scalar(c) && c >= 0x80 ==> !BeginsWith(s, c, |Utf8One(c)|)
    ensures var (c, n) := DecodeUtf8(s);
            c == 0xFFFD && n <= |s| && (n == 1 || Begins(s, n)) && (n < |s| ==> !Begins(s, n + 1))
  {
    var lead, n := s[0] as int, DecodeUtf8(s).1;
    var low := if lead == 0xE0 then 0xA0 else if lead == 0xF0 then 0x90 else 0x80;
    var high := if lead == 0xED then 0x9F else if lead == 0xF4 then 0x8F else 0xBF;
    hide Begins, BeginsWith, Utf8One;
    if lead < 0xC2 || lead > 0xF4 {
      if |s| > 1 { NotBegun(s, 2); }
    } else if !Within(s, 1, low, high) {
      if |s| > 1 { NotBegun(s, 2); }
    } else if lead <= 0xDF {
      WholeTwo(s);
    } else if !Within(s, 2, 0x80, 0xBF) {
      if lead <= 0xEF { BegunThree(s); } else { BegunFour(s, 2); }
      if |s| > 2 { NotBegun(s, 3); }
    } else if lead <= 0xEF {
      WholeThree(s);
    } else if !Within(s, 3, 0x80, 0xBF) {
      BegunFour(s, 3);
      if |s| > 3 { NotBegun(s, 4); }
    } else {
      WholeFour(s);
    }
  }

  lemma WholeTwo(s: string)
    requires |s| >= 2 && 0xC2 <= s[0] as int <= 0xDF && SecondOk(s[0] as int, s[1] as int)
    ensures exists c: int :: Scalar(c) && c >= 0x80 && BeginsWith(s, c, |Utf8One(c)|)
  {
    var a, b := s[0] as int - 0xC0, s[1] as int - 0x80;
    var c := a * 64 + b;
    assert c / 64 == a && c % 64 == b;
    assert Utf8One(c) == [Byte(0xC0 + a), Byte(0x80 + b)] == s[..2];
    assert BeginsWith(s, c, |Utf8One(c)|);
  }

  lemma WholeThree(s: string)
    requires |s| >= 3 && 0xE0 <= s[0] as int <= 0xEF && SecondOk(s[0] as int, s[1] as int) && 0x80 <= s[2] as int <= 0xBF
    ensures exists c: int :: Scalar(c) && c >= 0x80 && BeginsWith(s, c, |Utf8One(c)|)
  {
    var a, b, d := s[0] as int - 0xE0, s[1] as int - 0x80, s[2] as int - 0x80;
    var c := (a * 64 + b) * 64 + d;
    assert c / 0x1000 == a && c / 64 % 64 == b && c % 64 == d;
    assert Utf8One(c) == [Byte(0xE0 + a), Byte(0x80 + b), Byte(0x80 + d)] == s[..3];
    assert BeginsWith(s, c, |Utf8One(c)|);
  }

  lemma WholeFour(s: string)
    requires |s| >= 4 && 0xF0 <= s[0] as int <= 0xF4 && SecondOk(s[0] as int, s[1] as int)
    requires 0x80 <= s[2] as int <= 0xBF && 0x80 <= s[3] as int <= 0xBF
    ensures exists c: int :: Scalar(c) && c >= 0x80 && BeginsWith(s, c, |Utf8One(c)|)
  {
    var a, b, d, e := s[0] as int - 0xF0, s[1] as int - 0x80, s[2] as int - 0x80, s[3] as int - 0x80;
    var c := ((a * 64 + b) * 64 + d) * 64 + e;
    FourParts(a, b, d, e);
    assert Utf8One(c) == [Byte(0xF0 + a), Byte(0x80 + b), Byte(0x80 + d), Byte(0x80 + e)] == s[..4];
    assert BeginsWith(s, c, |Utf8One(c)|);
  }

  /** Only a backslash is doubled, and it is a code point of its own. */
  lemma DoubledOne(c: int, tail: string)
    requires Scalar(c)
    ensures Doubled(Utf8One(c) + tail) == (if c == '\\' as int then "\\\\" else Utf8One(c)) + Doubled(tail)
  {
    DoubledPlain(Utf8One(c), tail);
    assert c == '\\' as int ==> (Utf8One(c) + tail)[1..] == tail;
  }

  lemma {:induction false} DoubledPlain(a: string, tail: string)
    ensures '\\' !in a ==> Doubled(a + tail) == a + Doubled(tail)
  {
    if a == "" {
      assert a + tail == tail;
    } else if '\\' !in a {
      assert (a + tail)[1..] == a[1..] + tail;
      DoubledPlain(a[1..], tail);
      assert [a[0]] + (a[1..] + Doubled(tail)) == a + Doubled(tail);
    }
  }

  /** In a narrow literal, bytes other than NUL and backslash stand for themselves. */
  lemma {:induction false} UnitsOfBytes(a: string, tail: string, other: Escapes)
    requires '\\' !in a && '\0' !in a
    ensures Units(a + tail, 1, other) == Bytes(a) + Units(tail, 1, other)
  {
    hide Units, Bytes, One;
    if a == "" {
      assert a + tail == tail;
      BytesStep(a);
    } else {
      UnitsOfByte(a[0], a[1..] + tail, other);
      assert a + tail == [a[0]] + (a[1..] + tail);
      UnitsOfBytes(a[1..], tail, other);
      BytesStep(a);
    }
  }

  lemma UnitsOfByte(c: char, tail: string, other: Escapes)
    requires c != '\\' && c != '\0'
    ensures Units([c] + tail, 1, other) == [c as int] + Units(tail, 1, other)
  {
    assert ([c] + tail)[1..] == tail;
    assert One([c] + tail, 1, other) == ([c as int], 1);
  }

  lemma BytesStep(a: string)
    ensures if a == "" then Bytes(a) == [] else Bytes(a) == [a[0] as int] + Bytes(a[1..])
  {
  }

  lemma UnitsOfOne(c: int, tail: string, width: nat, other: Escapes)
    requires Scalar(c) && width in {1, 2, 4}
    ensures Units((if c == '\\' as int then "\\\\" else Utf8One(c)) + tail, width, other)
            == (if width > 1 then Emit(c, width) else Bytes(Utf8One(c))) + Units(tail, width, other)
  {
    if c == '\\' as int {
      assert ("\\\\" + tail)[2..] == tail;
      assert Bytes(Utf8One(c)) == [c];
    } else if width == 1 {
      UnitsOfBytes(Utf8One(c), tail, other);
    } else if c < 0x80 {
      assert (Utf8One(c) + tail)[1..] == tail;
    } else {
      var s := Utf8One(c) + tail;
      DecodeEncoded(c, tail);
      assert Skip(s, |Utf8One(c)|) == tail;
      LeadByte(c, tail);
    }
  }

  lemma LeadByte(c: int, tail: string)
    requires Scalar(c) && c >= 0x80
    ensures (Utf8One(c) + tail)[0] as int >= 0x80
  {}

  /** Doubling the backslashes and evaluating escapes gives the text back. */
  lemma {:induction false} UnitsOfDoubled(cs: seq<int>, width: nat, other: Escapes)
    requires (forall c :: c in cs ==> Scalar(c)) && width in {1, 2, 4}
    ensures Units(Doubled(Utf8(cs)), width, other) == ValueOf(cs, width)
  {
    hide Units, Utf8One, Emit, Doubled;
    if cs == [] {
      UnitsNone(width, other);
    } else {
      DoubledOne(cs[0], Utf8(cs[1..]));
      UnitsOfOne(cs[0], Doubled(Utf8(cs[1..])), width, other);
      UnitsOfDoubled(cs[1..], width, other);
    }
  }

  /** In a wide literal an ill-formed part is written as U+FFFD, and reading goes on behind it. */
  lemma UnitsOfIllFormed(s: string, width: nat, other: Escapes) returns (n: nat)
    requires width in {2, 4} && s != "" && s[0] as int >= 0x80
    requires forall c: int :: Scalar(c) && c >= 0x80 ==> !BeginsWith(s, c, |Utf8One(c)|)
    ensures 0 < n <= |s| && (n == 1 || Begins(s, n)) && (n < |s| ==> !Begins(s, n + 1))
    ensures Units(s, width, other) == [0xFFFD] + Units(s[n..], width, other)
  {
    hide DecodeUtf8, Begins;
    IllFormedPart(s);
    n := DecodeUtf8(s).1;
    assert Skip(s, n) == s[n..];
    assert Units(s, width, other) == [0xFFFD] + Units(s[n..], width, other);
  }

  lemma UnitsNone(width: nat, other: Escapes)
    ensures Units(Doubled(""), width, other) == []
  {}

  /** The UTF-8 branch: the leading byte, then a loop over the continuation bytes. An
      encoded code point comes back with its length, whatever follows it. */
  method DecodeSequence(s: string) returns (c: int, n: nat)
    requires s != "" && s[0] as int >= 0x80
    ensures (c, n) == DecodeUtf8(s)
    ensures forall d: int, tail: string :: Scalar(d) && d >= 0x80 && s == Utf8One(d) + tail ==> c == d && n == |Utf8One(d)|
  {
    hide Utf8One;
    forall d: int, tail: string | Scalar(d) && d >= 0x80 && s == Utf8One(d) + tail
      ensures DecodeUtf8(s) == (d, |Utf8One(d)|)
    {
      DecodeEncoded(d, tail);
    }
    c, n := DecodeLoop(s);
  }

  method DecodeLoop(s: string) returns (c: int, n: nat)
    requires s != "" && s[0] as int >= 0x80
    ensures (c, n) == DecodeUtf8(s)
  {
    var lead := s[0] as int;
    var cont;
    if lead < 0xC2 {
      return 0xFFFD, 1;
    } else if lead <= 0xDF {
      cont, c := 1, lead % 0x20;
    } else if lead <= 0xEF {
      cont, c := 2, lead % 0x10;
    } else if lead <= 0xF4 {
      cont, c := 3, lead % 8;
    } else {
      return 0xFFFD, 1;
    }
    ghost var n0 := c;
    var i := 1;
    while i <= cont
      invariant 1 <= i <= cont + 1 && (i == 1 ==> c == n0)
      invariant i >= 2 ==> Within(s, 1, if lead == 0xE0 then 0xA0 else if lead == 0xF0 then 0x90 else 0x80,
                                  if lead == 0xED then 0x9F else if lead == 0xF4 then 0x8F else 0xBF)
      invariant i == 2 ==> c == n0 * 64 + CharAt(s, 1) as int % 64
      invariant i >= 3 ==> Within(s, 2, 0x80, 0xBF)
      invariant i == 3 ==> c == (n0 * 64 + CharAt(s, 1) as int % 64) * 64 + CharAt(s, 2) as int % 64
      invariant i == 4 ==> Within(s, 3, 0x80, 0xBF)
      invariant i == 4 ==>
        c == ((n0 * 64 + CharAt(s, 1) as int % 64) * 64 + CharAt(s, 2) as int % 64) * 64 + CharAt(s, 3) as int % 64
    {
      var l, h := 0x80, 0xBF;
      if i == 1 {
        match lead {
          case 0xE0 => l := 0xA0;
          case 0xED => h := 0x9F;
          case 0xF0 => l := 0x90;
          case 0xF4 => h := 0x8F;
          case _ =>
        }
      }
      if CharAt(s, i) as int < l || CharAt(s, i) as int > h {
        return 0xFFFD, i;
      }
      c := c * 64 + CharAt(s, i) as int % 64;
      i := i + 1;
    }
    n := 1 + cont;
  }

  method TakeOne(s: string, width: nat, other: Escapes) returns (units: seq<int>, n: nat)
    requires s != ""
    ensures (units, n) == One(s, width, other)
  {
    hide DecodeUtf8, Emit;
    if s[0] == '\\' {
      if CharAt(s, 1) == '\\' {
        units, n := Emit('\\' as int, width), 2;
      } else {
        var o := other(s);
        units, n := o.0, o.1;
      }
    } else if width > 1 && s[0] as int >= 0x80 {
      var c;
      c, n := DecodeSequence(s);
      units := Emit(c, width);
    } else {
      units, n := Emit(s[0] as int, width), 1;
    }
  }

  /** The loop of parse_escape_string, and the terminator. */
  method ParseEscapeString(buf: string, width: nat, other: Escapes) returns (out: seq<int>)
    ensures out == Units(buf, width, other) + [0]
  {
    hide One, Skip;
    out := [];
    var s := buf;
    assert [] + Units(s, width, other) == Units(s, width, other);
    while s != "" && s[0] != '\0'
      invariant out + Units(s, width, other) == Units(buf, width, other)
      decreases |s|
    {
      var units, n := TakeOne(s, width, other);
      s := Skip(s, n);
      assert out + (units + Units(s, width, other)) == (out + units) + Units(s, width, other);
      out := out + units;
    }
    assert out + [] == out;
    out := out + [0];
  }

  function WidthOf(prefix: string, wide: nat): nat {
    if prefix == "u" then 2 else if prefix == "U" then 4 else if prefix == "L" then wide else 1
  }

  datatype Literals = Value(units: seq<int>) | Invalid | Other

  /** parse_string on a raw literal. Whatever the delimiter, contents that are
      well-formed UTF-8 without NUL come out as they were written. */
  method ParseRawString(s: string, wide: nat, other: Escapes) returns (r: Literals)
    requires wide in {2, 4}
    ensures forall prefix: string, d: string, cs: seq<int> ::
              (forall c :: c in cs ==> Scalar(c)) && IsRaw(s, prefix, d, Utf8(cs))
              ==> r == Value(ValueOf(cs, WidthOf(prefix, wide)) + [0])
    ensures forall prefix: string, d: string, cs: seq<int> ::
              (forall c :: c in cs ==> Scalar(c)) && IsRaw(s, prefix, d, Utf8(cs)) ==> LiteralMeans(r, prefix, wide, cs)
  {
    hide IsRaw, Units, ValueOf, Utf8, WidthOf, LiteralMeans;
    var body := RawBody(s);
    match body
    case NotRaw => r := Other;
    case Malformed => r := Invalid;
    case Content(prefix, text) =>
      var width := WidthOf(prefix, wide);
      var escaped := Double(text);
      var out := ParseEscapeString(escaped, width, other);
      r := Value(out);
      forall x: string, d: string, cs: seq<int> | (forall c :: c in cs ==> Scalar(c)) && IsRaw(s, x, d, Utf8(cs))
        ensures x == prefix && out == ValueOf(cs, width) + [0] && LiteralMeans(r, x, wide, cs)
      {
        WidthIsOne(prefix, wide);
        UnitsOfDoubled(cs, width, other);
        PrefixOf(s, x, d, Utf8(cs));
        EndedMeans(r, prefix, wide, cs);
      }
  }

  /** What the literal's value must be: the bytes without a prefix or with u8, the code
      points in units of four bytes, or UTF-16 in units of two. */
  ghost predicate LiteralMeans(r: Literals, prefix: string, wide: nat, cs: seq<int>)
    requires forall c :: c in cs ==> Scalar(c)
  {
    && r.Value?
    && (prefix == "" || prefix == "u8" ==> r.units == Bytes(Utf8(cs)) + [0])
    && (prefix == "U" || (prefix == "L" && wide == 4) ==> r.units == cs + [0])
    && (prefix == "u" || (prefix == "L" && wide == 2) ==> FromUtf16(r.units) == cs + [0] && forall u :: u in r.units ==> 0 <= u < 0x10000)
  }

  lemma EndedMeans(r: Literals, prefix: string, wide: nat, cs: seq<int>)
    requires wide in {2, 4} && IsPrefix(prefix) && (forall c :: c in cs ==> Scalar(c))
    requires r == Value(ValueOf(cs, WidthOf(prefix, wide)) + [0])
    ensures LiteralMeans(r, prefix, wide, cs)
  {
    hide ValueOf, Utf8, Bytes;
    ValueMeans(cs, [0]);
    assert FromUtf16([0]) == [0] by { assert [0][1..] == []; }
  }

  lemma PrefixOf(s: string, prefix: string, d: string, content: string)
    requires IsRaw(s, prefix, d, content)
    ensures IsPrefix(prefix)
  {}

  lemma WidthIsOne(prefix: string, wide: nat)
    requires wide in {2, 4}
    ensures WidthOf(prefix, wide) in {1, 2, 4}
  {}
}
