/** Saved token streams: token kinds and their values packed into one array of
    32-bit words by tok_str_add2 and unpacked by tok_get. */
module TokenStream {
  import opened Wrappers

  // ---- memory: words of four bytes, lowest first -----------------------------------

  type byte = x: int | 0 <= x < 256

  datatype Word = Word(b0: byte, b1: byte, b2: byte, b3: byte)

  const ZERO := Word(0, 0, 0, 0)
  const ONES := Word(255, 255, 255, 255)

  function Unsigned(w: Word): (n: int)
    ensures 0 <= n < 0x1_0000_0000
  {
    w.b0 + 0x100 * (w.b1 + 0x100 * (w.b2 + 0x100 * w.b3))
  }

  function Signed(w: Word): (n: int)
    ensures IsInt(n)
  {
    if w.b3 >= 128 then Unsigned(w) - 0x1_0000_0000 else Unsigned(w)
  }

  predicate IsInt(n: int) { -0x8000_0000 <= n < 0x8000_0000 }

  /** The 32-bit two's complement of n. */
  function ToWord(n: int): Word
    requires IsInt(n)
  {
    var m := if n < 0 then n + 0x1_0000_0000 else n;
    Word(m % 0x100, m / 0x100 % 0x100, m / 0x100 / 0x100 % 0x100, m / 0x100 / 0x100 / 0x100)
  }

  lemma WordHolds(n: int)
    requires IsInt(n)
    ensures Signed(ToWord(n)) == n
  {
    var m := if n < 0 then n + 0x1_0000_0000 else n;
    var q := m / 0x100;
    var r := q / 0x100;
    assert m == m % 0x100 + 0x100 * q && q == q % 0x100 + 0x100 * r && r == r % 0x100 + 0x100 * (r / 0x100);
    assert ToWord(n) == Word(m % 0x100, q % 0x100, r % 0x100, r / 0x100);
    assert Unsigned(ToWord(n)) == m;
  }

  /** A number determines its bytes. */
  lemma SameWord(v: Word, w: Word)
    ensures Unsigned(v) == Unsigned(w) ==> v == w
    ensures Signed(v) == Signed(w) ==> v == w
  {
    assert Signed(v) == Signed(w) ==> Unsigned(v) == Unsigned(w);
    if Unsigned(v) == Unsigned(w) {
      SameByte(v.b0, v.b1 + 0x100 * (v.b2 + 0x100 * v.b3), w.b0, w.b1 + 0x100 * (w.b2 + 0x100 * w.b3));
      SameByte(v.b1, v.b2 + 0x100 * v.b3, w.b1, w.b2 + 0x100 * w.b3);
      SameByte(v.b2, v.b3, w.b2, w.b3);
    }
  }

  lemma SameByte(b: byte, h: int, c: byte, k: int)
    requires b + 0x100 * h == c + 0x100 * k
    ensures b == c && h == k
  {}

  // ---- token kinds --------------------------------------------------------------------

  const TOK_CCHAR := 0xc0
  const TOK_LCHAR := 0xc1
  const TOK_CINT := 0xc2
  const TOK_CUINT := 0xc3
  const TOK_CLLONG := 0xc4
  const TOK_CULLONG := 0xc5
  const TOK_CLONG := 0xc6
  const TOK_CULONG := 0xc7
  const TOK_STR := 0xc8
  const TOK_LSTR := 0xc9
  const TOK_CFLOAT := 0xca
  const TOK_CDOUBLE := 0xcb
  const TOK_CLDOUBLE := 0xcc
  const TOK_PPNUM := 0xcd
  const TOK_PPSTR := 0xce
  const TOK_LINENUM := 0xcf
  const TOK_CIMAGI := 0xd2
  const TOK_CIMAGLL := 0xd3
  const TOK_CIMAGF := 0xd4
  const TOK_CIMAGD := 0xd5
  const TOK_CIMAGL := 0xd6
  const TOK_U16CHAR := 0xd7
  const TOK_U32CHAR := 0xd8
  const TOK_U16STR := 0xd9
  const TOK_U32STR := 0xda
  const TOK_U8STR := 0xdb
  const TOK_U8CHAR := 0xdc
  const TOK_MAX_SIZE := 4

  predicate HasValue(t: int) { TOK_CCHAR <= t <= TOK_LINENUM || TOK_CIMAGI <= t <= TOK_U8CHAR }

  /** LONG_SIZE and the words of a long double. */
  datatype Target = Target(longIs64: bool, ldoubleWords: nat)

  predicate TargetOk(g: Target) { 2 <= g.ldoubleWords <= TOK_MAX_SIZE }

  /** How the value of a kind is stored. Missing: read as one word, never written. */
  datatype Shape = Bare | SignedInt | UnsignedInt | Raw(n: nat) | Text | Missing

  function ShapeOf(t: int, g: Target): Shape {
    if t == TOK_CINT || t == TOK_U8CHAR || t == TOK_CCHAR || t == TOK_U16CHAR || t == TOK_U32CHAR || t == TOK_LCHAR
       || t == TOK_LINENUM || t == TOK_CIMAGI || (t == TOK_CLONG && !g.longIs64) then SignedInt
    else if t == TOK_CUINT || (t == TOK_CULONG && !g.longIs64) then UnsignedInt
    else if t == TOK_CFLOAT then Raw(1)
    else if t == TOK_CIMAGF then Missing
    else if t == TOK_U8STR || t == TOK_STR || t == TOK_U16STR || t == TOK_U32STR || t == TOK_LSTR
            || t == TOK_PPNUM || t == TOK_PPSTR then Text
    else if t == TOK_CDOUBLE || t == TOK_CLLONG || t == TOK_CULLONG || t == TOK_CIMAGLL || t == TOK_CIMAGD
            || t == TOK_CLONG || t == TOK_CULONG then Raw(2)
    else if t == TOK_CLDOUBLE || t == TOK_CIMAGL then Raw(g.ldoubleWords)
    else Bare
  }

  /** The value union: its words, and the string its pointer and size denote. */
  datatype CValue = CValue(tab: seq<Word>, text: seq<byte>)

  predicate CValueOk(cv: CValue) { |cv.tab| == TOK_MAX_SIZE && IsInt(|cv.text|) }

  /** What a value says: a 64-bit number, words of a number, or a string. */
  datatype Value = Nothing | Num(i: int) | Words(w: seq<Word>) | Str(text: seq<byte>)

  function Meaning(shape: Shape, cv: CValue): Value
    requires CValueOk(cv) && (shape.Raw? ==> shape.n <= TOK_MAX_SIZE)
  {
    match shape
    case Bare => Nothing
    case Missing => Words(cv.tab[..1])
    case SignedInt => Num(Signed(cv.tab[0]))
    case UnsignedInt => Num(Unsigned(cv.tab[0]))
    case Raw(n) => Words(cv.tab[..n])
    case Text => Str(cv.text)
  }

  /** The number the whole 64-bit field holds is the one its low word means. */
  predicate Canonical(shape: Shape, cv: CValue)
    requires CValueOk(cv)
  {
    && (shape.SignedInt? ==> cv.tab[1] == if cv.tab[0].b3 >= 128 then ONES else ZERO)
    && (shape.UnsignedInt? ==> cv.tab[1] == ZERO)
  }

  // ---- the stored form -------------------------------------------------------------------

  function WordsFor(size: nat): nat { (size + 3) / 4 }

  /** Word j of a text, over what the memory held before. */
  function Overlay(was: Word, text: seq<byte>, j: nat): Word {
    Word(if 4 * j < |text| then text[4 * j] else was.b0,
         if 4 * j + 1 < |text| then text[4 * j + 1] else was.b1,
         if 4 * j + 2 < |text| then text[4 * j + 2] else was.b2,
         if 4 * j + 3 < |text| then text[4 * j + 3] else was.b3)
  }

  function Pack(text: seq<byte>): (r: seq<Word>)
    ensures |r| == WordsFor(|text|)
  {
    seq(WordsFor(|text|), j requires j >= 0 => Overlay(ZERO, text, j))
  }

  function ByteAt(s: seq<Word>, k: nat): byte
    requires k / 4 < |s|
  {
    var w := s[k / 4];
    if k % 4 == 0 then w.b0 else if k % 4 == 1 then w.b1 else if k % 4 == 2 then w.b2 else w.b3
  }

  /** The bytes that start where s starts. */
  function Unpack(s: seq<Word>, size: nat): (r: seq<byte>)
    requires size <= 4 * |s|
    ensures |r| == size
  {
    seq(size, k requires 0 <= k < size => ByteAt(s, k))
  }

  lemma UnpackPack(text: seq<byte>, rest: seq<Word>)
    ensures |text| <= 4 * |Pack(text) + rest| && Unpack(Pack(text) + rest, |text|) == text
  {
    var s := Pack(text) + rest;
    forall k | 0 <= k < |text| ensures ByteAt(s, k) == text[k] {
      assert s[k / 4] == Overlay(ZERO, text, k / 4);
      assert k == 4 * (k / 4) + k % 4;
    }
  }

  function Payload(shape: Shape, cv: CValue): seq<Word>
    requires CValueOk(cv) && (shape.Raw? ==> shape.n <= TOK_MAX_SIZE)
  {
    match shape
    case Bare => []
    case Missing => []
    case SignedInt => [cv.tab[0]]
    case UnsignedInt => [cv.tab[0]]
    case Raw(n) => cv.tab[..n]
    case Text => [ToWord(|cv.text|)] + Pack(cv.text)
  }

  function Encode(g: Target, t: int, cv: CValue): seq<Word>
    requires TargetOk(g) && CValueOk(cv) && IsInt(t)
  {
    [ToWord(t)] + Payload(ShapeOf(t, g), cv)
  }

  /** What the reader makes of the value words; None past the end of the stream. */
  function TakeValue(shape: Shape, r: seq<Word>, cv: CValue): (o: Option<(CValue, seq<Word>)>)
    requires CValueOk(cv) && (shape.Raw? ==> shape.n <= TOK_MAX_SIZE)
    ensures o.Some? ==> CValueOk(o.value.0) && |o.value.1| <= |r|
  {
    match shape
    case Bare => Some((cv, r))
    case SignedInt =>
      if r == [] then None
      else Some((cv.(tab := [r[0], if r[0].b3 >= 128 then ONES else ZERO] + cv.tab[2..]), r[1..]))
    case UnsignedInt =>
      if r == [] then None else Some((cv.(tab := [r[0], ZERO] + cv.tab[2..]), r[1..]))
    case Missing =>
      if r == [] then None else Some((cv.(tab := r[..1] + cv.tab[1..]), r[1..]))
    case Raw(n) =>
      if |r| < n then None else Some((cv.(tab := r[..n] + cv.tab[n..]), r[n..]))
    case Text =>
      if r == [] || Signed(r[0]) < 0 || |r| - 1 < WordsFor(Signed(r[0])) then None
      else
        var size := Signed(r[0]);
        Some((cv.(text := Unpack(r[1..], size)), r[1 + WordsFor(size)..]))
  }

  function Decode(g: Target, s: seq<Word>, cv: CValue): (o: Option<(int, CValue, seq<Word>)>)
    requires TargetOk(g) && CValueOk(cv)
    ensures o.Some? ==> CValueOk(o.value.1) && |o.value.2| < |s|
  {
    if s == [] then None
    else
      var t := Signed(s[0]);
      match TakeValue(ShapeOf(t, g), s[1..], cv)
      case None => None
      case Some(v) => Some((t, v.0, v.1))
  }

  // ---- round trips --------------------------------------------------------------------------

  lemma TextReadsBack(text: seq<byte>, rest: seq<Word>)
    requires IsInt(|text|)
    ensures var r := [ToWord(|text|)] + Pack(text) + rest;
            && Signed(r[0]) == |text| && WordsFor(|text|) <= |r| - 1
            && Unpack(r[1..], |text|) == text && r[1 + WordsFor(|text|)..] == rest
  {
    hide ToWord, Signed, Pack, Unpack;
    var r := [ToWord(|text|)] + Pack(text) + rest;
    WordHolds(|text|);
    assert r[1..] == Pack(text) + rest;
    UnpackPack(text, rest);
  }

  lemma ValueReadsBack(shape: Shape, cv: CValue, rest: seq<Word>, cv0: CValue)
    requires CValueOk(cv) && CValueOk(cv0) && (shape.Raw? ==> shape.n <= TOK_MAX_SIZE) && !shape.Missing?
    ensures var o := TakeValue(shape, Payload(shape, cv) + rest, cv0);
            o.Some? && o.value.1 == rest && Meaning(shape, o.value.0) == Meaning(shape, cv) && Canonical(shape, o.value.0)
  {
    hide ToWord, Signed, Unsigned, Pack, Unpack;
    var r := Payload(shape, cv) + rest;
    match shape
    case Bare => assert r == rest;
    case SignedInt => assert r[1..] == rest;
    case UnsignedInt => assert r[1..] == rest;
    case Raw(n) =>
      assert r[..n] == cv.tab[..n] && r[n..] == rest;
      assert (r[..n] + cv0.tab[n..])[..n] == cv.tab[..n];
    case Text =>
      TextReadsBack(cv.text, rest);
  }

  /** One token comes back, whatever the value union held before, exactly when it
      is not the kind whose word is never written. */
  lemma TokenReadsBack(g: Target, t: int, cv: CValue, rest: seq<Word>, cv0: CValue)
    requires TargetOk(g) && CValueOk(cv) && CValueOk(cv0) && IsInt(t)
    ensures var o := Decode(g, Encode(g, t, cv) + rest, cv0);
            var shape := ShapeOf(t, g);
            (o.Some? && o.value.0 == t && o.value.2 == rest
             && Meaning(shape, o.value.1) == Meaning(shape, cv) && Canonical(shape, o.value.1))
            <==> t != TOK_CIMAGF
  {
    hide Meaning, Canonical, ToWord, Signed;
    var s := Encode(g, t, cv) + rest;
    var shape := ShapeOf(t, g);
    WordHolds(t);
    assert s[0] == ToWord(t);
    if t != TOK_CIMAGF {
      ValueReadsBack(shape, cv, rest, cv0);
      assert s[1..] == Payload(shape, cv) + rest;
    } else {
      assert shape == Missing && s[1..] == rest;
    }
  }

  /** The number read is the number written if the field held it in 64 bits. */
  function Field(cv: CValue): int
    requires CValueOk(cv)
  {
    0x1_0000_0000 * Signed(cv.tab[1]) + Unsigned(cv.tab[0])
  }

  lemma CanonicalField(shape: Shape, cv: CValue)
    requires CValueOk(cv) && (shape.SignedInt? || shape.UnsignedInt?)
    ensures Canonical(shape, cv) <==> Meaning(shape, cv) == Num(Field(cv))
  {
    hide Signed, Unsigned;
    SameWord(cv.tab[1], ONES);
    SameWord(cv.tab[1], ZERO);
    FieldHigh(cv.tab[0], Signed(cv.tab[1]));
  }

  lemma FieldHigh(low: Word, high: int)
    ensures Signed(ONES) == -1 && Signed(ZERO) == 0
    ensures 0x1_0000_0000 * high + Unsigned(low) == Signed(low) <==> high == if low.b3 >= 128 then -1 else 0
    ensures 0x1_0000_0000 * high + Unsigned(low) == Unsigned(low) <==> high == 0
  {
    hide Signed, Unsigned;
    SignedOf(low);
    SignedOf(ONES);
    SignedOf(ZERO);
    OnesAndZero();
  }

  lemma SignedOf(w: Word)
    ensures Signed(w) == Unsigned(w) - if w.b3 >= 128 then 0x1_0000_0000 else 0
  {}

  lemma OnesAndZero()
    ensures Unsigned(ONES) == 0xFFFF_FFFF && Unsigned(ZERO) == 0
  {}

  // ---- kind by kind -----------------------------------------------------------------------------

  predicate IsWide(t: int, g: Target) {
    || t == TOK_CLLONG || t == TOK_CULLONG || t == TOK_CDOUBLE || t == TOK_CIMAGLL || t == TOK_CIMAGD
    || (g.longIs64 && (t == TOK_CLONG || t == TOK_CULONG))
  }

  predicate IsSigned(t: int, g: Target) {
    || t == TOK_CINT || t == TOK_CCHAR || t == TOK_LCHAR || t == TOK_U8CHAR || t == TOK_U16CHAR || t == TOK_U32CHAR
    || t == TOK_LINENUM || t == TOK_CIMAGI || (!g.longIs64 && t == TOK_CLONG)
  }

  predicate IsString(t: int) {
    || t == TOK_STR || t == TOK_LSTR || t == TOK_U8STR || t == TOK_U16STR || t == TOK_U32STR
    || t == TOK_PPNUM || t == TOK_PPSTR
  }

  /** What the value union holds after a token of each kind was saved from cv and read
      into cv0. */
  ghost predicate SameValue(g: Target, t: int, cv: CValue, cv0: CValue, v: CValue)
    requires TargetOk(g) && CValueOk(cv) && CValueOk(cv0) && CValueOk(v)
  {
    && (IsWide(t, g) ==> v.tab[..2] == cv.tab[..2])
    && (t == TOK_CLDOUBLE || t == TOK_CIMAGL ==> v.tab[..g.ldoubleWords] == cv.tab[..g.ldoubleWords])
    && (IsSigned(t, g) ==> Field(v) == Signed(cv.tab[0]))
    && (t == TOK_CUINT || (!g.longIs64 && t == TOK_CULONG) ==> Field(v) == Unsigned(cv.tab[0]))
    && (t == TOK_CFLOAT ==> v.tab[0] == cv.tab[0])
    && (IsString(t) ==> v.text == cv.text)
    && (!HasValue(t) ==> v == cv0)
  }

  /** Each kind's whole value comes back, whatever the union held before. */
  lemma KindReadsBack(g: Target, t: int, cv: CValue, rest: seq<Word>, cv0: CValue)
    requires TargetOk(g) && CValueOk(cv) && CValueOk(cv0) && IsInt(t) && t != TOK_CIMAGF
    ensures var o := Decode(g, Encode(g, t, cv) + rest, cv0);
            o.Some? && o.value.0 == t && o.value.2 == rest && SameValue(g, t, cv, cv0, o.value.1)
  {
    hide Signed, Unsigned, ToWord, Pack, Unpack;
    TokenReadsBack(g, t, cv, rest, cv0);
    var v := Decode(g, Encode(g, t, cv) + rest, cv0).value.1;
    if IsSigned(t, g) || t == TOK_CUINT || (!g.longIs64 && t == TOK_CULONG) {
      CanonicalField(ShapeOf(t, g), v);
    }
    if IsWide(t, g) {
      assert ShapeOf(t, g) == Raw(2);
    }
    NotValued(g, t, cv, rest, cv0);
  }

  /** How many words each kind takes. */
  lemma KindWords(g: Target, t: int, cv: CValue)
    requires TargetOk(g) && CValueOk(cv) && IsInt(t)
    ensures |Encode(g, t, cv)| ==
            if IsSigned(t, g) || t == TOK_CUINT || (!g.longIs64 && t == TOK_CULONG) || t == TOK_CFLOAT then 2
            else if IsWide(t, g) then 3
            else if t == TOK_CLDOUBLE || t == TOK_CIMAGL then 1 + g.ldoubleWords
            else if IsString(t) then 2 + (|cv.text| + 3) / 4
            else 1
  {
    hide ToWord, Pack;
  }

  /** The long doubles in use: of two, three and four words. */
  lemma TargetsInUse(longIs64: bool)
    ensures TargetOk(Target(longIs64, 2)) && TargetOk(Target(longIs64, 3)) && TargetOk(Target(longIs64, 4))
  {}

  /** Punctuators, keywords and identifiers are one word and leave the union alone. */
  lemma NotValued(g: Target, t: int, cv: CValue, rest: seq<Word>, cv0: CValue)
    requires TargetOk(g) && CValueOk(cv) && CValueOk(cv0) && IsInt(t)
    ensures !HasValue(t) ==> Encode(g, t, cv) == [ToWord(t)] && Decode(g, Encode(g, t, cv) + rest, cv0) == Some((t, cv0, rest))
  {
    hide Signed, ToWord;
    if !HasValue(t) {
      WordHolds(t);
      assert ([ToWord(t)] + rest)[1..] == rest;
    }
  }

  // ---- whole streams ------------------------------------------------------------------------------

  datatype Tok = Tok(t: int, cv: CValue)

  predicate TokOk(k: Tok) { IsInt(k.t) && CValueOk(k.cv) }

  /** A token that the stream can hold. */
  type Saved = k: Tok | TokOk(k) witness Tok(0, CValue([ZERO, ZERO, ZERO, ZERO], []))

  /** No token of the kind whose word is read but never written. */
  predicate Readable(ks: seq<Saved>) { forall k :: k in ks ==> k.t != TOK_CIMAGF }

  function EncodeAll(g: Target, ks: seq<Saved>): seq<Word>
    requires TargetOk(g)
  {
    if ks == [] then [] else Encode(g, ks[0].t, ks[0].cv) + EncodeAll(g, ks[1..])
  }

  /** Reading to the end: kinds and meanings, each read into the union the last one left. */
  function DecodeAll(g: Target, s: seq<Word>, cv: CValue): Option<seq<(int, Value)>>
    requires TargetOk(g) && CValueOk(cv)
    decreases |s|
  {
    if s == [] then Some([])
    else
      match Decode(g, s, cv)
      case None => None
      case Some((t, v, rest)) =>
        match DecodeAll(g, rest, v)
        case None => None
        case Some(more) => Some([(t, Meaning(ShapeOf(t, g), v))] + more)
  }

  lemma DecodeAllStep(g: Target, s: seq<Word>, cv: CValue)
    requires TargetOk(g) && CValueOk(cv) && s != [] && DecodeAll(g, s, cv).Some?
    ensures Decode(g, s, cv).Some?
    ensures var (t, v, rest) := Decode(g, s, cv).value;
            && DecodeAll(g, rest, v).Some?
            && DecodeAll(g, s, cv).value == [(t, Meaning(ShapeOf(t, g), v))] + DecodeAll(g, rest, v).value
  {
    hide Decode, Meaning, ShapeOf;
  }

  lemma DecodeAllEnd(g: Target, cv: CValue)
    requires TargetOk(g) && CValueOk(cv)
    ensures DecodeAll(g, [], cv) == Some([])
  {}

  function Show(g: Target, k: Saved): (int, Value)
    requires TargetOk(g)
  {
    (k.t, Meaning(ShapeOf(k.t, g), k.cv))
  }

  function Shown(g: Target, ks: seq<Saved>): (r: seq<(int, Value)>)
    requires TargetOk(g)
    ensures |r| == |ks|
  {
    seq(|ks|, i requires 0 <= i < |ks| => Show(g, ks[i]))
  }

  /** A stream of tokens that are all read as they are written. */
  lemma {:induction false} ReadableReadsBack(g: Target, ks: seq<Saved>, cv0: CValue)
    requires TargetOk(g) && CValueOk(cv0) && Readable(ks)
    ensures DecodeAll(g, EncodeAll(g, ks), cv0) == Some(Shown(g, ks))
  {
    hide Meaning, Encode, Decode, Canonical;
    if ks == [] {
      assert Shown(g, ks) == [];
    } else {
      var k, more := ks[0], ks[1..];
      var s := EncodeAll(g, ks);
      TokenReadsBack(g, k.t, k.cv, EncodeAll(g, more), cv0);
      ReadableReadsBack(g, more, Decode(g, s, cv0).value.1);
      assert s != [];
      ShownHead(g, ks);
    }
  }

  lemma ShownHead(g: Target, ks: seq<Saved>)
    requires TargetOk(g) && ks != []
    ensures Shown(g, ks) == [Show(g, ks[0])] + Shown(g, ks[1..])
  {
    hide Show;
  }

  /** The words the reader takes for a token that turns out to have this value. */
  function Taken(g: Target, v: (int, Value)): nat {
    match ShapeOf(v.0, g)
    case Bare => 1
    case Raw(n) => 1 + n
    case Text => if v.1.Str? then 2 + WordsFor(|v.1.text|) else 2
    case _ => 2
  }

  function AllTaken(g: Target, vs: seq<(int, Value)>): nat {
    if vs == [] then 0 else Taken(g, vs[0]) + AllTaken(g, vs[1..])
  }

  /** Tokens of the kind that is stored one word short. */
  function Lost(ks: seq<Saved>): nat {
    if ks == [] then 0 else (if ks[0].t == TOK_CIMAGF then 1 else 0) + Lost(ks[1..])
  }

  lemma DecodeTakes(g: Target, s: seq<Word>, cv: CValue)
    requires TargetOk(g) && CValueOk(cv) && Decode(g, s, cv).Some?
    ensures var (t, v, rest) := Decode(g, s, cv).value;
            |s| == Taken(g, (t, Meaning(ShapeOf(t, g), v))) + |rest|
  {
    hide Signed, Unsigned, Unpack;
  }

  lemma {:induction false} DecodeAllTakes(g: Target, s: seq<Word>, cv: CValue)
    requires TargetOk(g) && CValueOk(cv)
    ensures var o := DecodeAll(g, s, cv); o.Some? ==> |s| == AllTaken(g, o.value)
    decreases |s|
  {
    hide Decode, Taken, Meaning;
    if s != [] && Decode(g, s, cv).Some? {
      DecodeTakes(g, s, cv);
      var (t, v, rest) := Decode(g, s, cv).value;
      DecodeAllTakes(g, rest, v);
      var o := DecodeAll(g, rest, v);
      if o.Some? {
        assert ([(t, Meaning(ShapeOf(t, g), v))] + o.value)[1..] == o.value;
      }
    }
  }

  lemma EncodeLength(g: Target, k: Saved)
    requires TargetOk(g)
    ensures |Encode(g, k.t, k.cv)| + (if k.t == TOK_CIMAGF then 1 else 0) == Taken(g, Show(g, k))
  {
    hide Signed, Unsigned, Pack, ToWord;
  }

  lemma {:induction false} EncodeAllLength(g: Target, ks: seq<Saved>)
    requires TargetOk(g)
    ensures |EncodeAll(g, ks)| + Lost(ks) == AllTaken(g, Shown(g, ks))
  {
    hide Encode, Taken, Show;
    if ks == [] {
      assert Shown(g, ks) == [];
    } else {
      EncodeLength(g, ks[0]);
      EncodeAllLength(g, ks[1..]);
      ShownHead(g, ks);
      assert ([Show(g, ks[0])] + Shown(g, ks[1..]))[1..] == Shown(g, ks[1..]);
    }
  }

  lemma {:induction false} NothingLost(ks: seq<Saved>)
    ensures Lost(ks) == 0 ==> Readable(ks)
  {
    if ks != [] {
      NothingLost(ks[1..]);
      assert forall k :: k in ks ==> k == ks[0] || k in ks[1..];
    }
  }

  /** A stream reads back as the kinds and values that were saved in it exactly when
      it holds no token that is stored one word short: the words would not suffice. */
  lemma StreamReadsBack(g: Target, ks: seq<Saved>, cv0: CValue)
    requires TargetOk(g) && CValueOk(cv0)
    ensures DecodeAll(g, EncodeAll(g, ks), cv0) == Some(Shown(g, ks)) <==> Readable(ks)
  {
    hide EncodeAll, DecodeAll, Shown, AllTaken, Lost;
    if Readable(ks) {
      ReadableReadsBack(g, ks, cv0);
    } else {
      DecodeAllTakes(g, EncodeAll(g, ks), cv0);
      EncodeAllLength(g, ks);
      NothingLost(ks);
    }
  }

  /** Hashing the words hashes the tokens: equal words for equal values, and only then. */
  lemma EqualWordsEqualTokens(g: Target, a: seq<Saved>, b: seq<Saved>)
    requires TargetOk(g) && Readable(a) && Readable(b)
    ensures EncodeAll(g, a) == EncodeAll(g, b) <==> Shown(g, a) == Shown(g, b)
  {
    var cv0 := CValue([ZERO, ZERO, ZERO, ZERO], []);
    StreamReadsBack(g, a, cv0);
    StreamReadsBack(g, b, cv0);
    if Shown(g, a) == Shown(g, b) {
      SameMeaningSameWords(g, a, b);
    }
  }

  lemma {:induction false} SameMeaningSameWords(g: Target, a: seq<Saved>, b: seq<Saved>)
    requires TargetOk(g)
    requires Shown(g, a) == Shown(g, b)
    ensures EncodeAll(g, a) == EncodeAll(g, b)
  {
    hide Encode, Meaning;
    assert |Shown(g, a)| == |a|;
    if a != [] {
      assert Shown(g, a)[0] == Shown(g, b)[0];
      OneMeaningOneForm(g, a[0], b[0]);
      forall i | 0 <= i < |a| - 1 ensures Shown(g, a[1..])[i] == Shown(g, b[1..])[i] {
        assert Shown(g, a)[i + 1] == Shown(g, b)[i + 1];
      }
      assert Shown(g, a[1..]) == Shown(g, b[1..]);
      SameMeaningSameWords(g, a[1..], b[1..]);
    }
  }

  lemma OneMeaningOneForm(g: Target, a: Saved, b: Saved)
    requires TargetOk(g) && a.t == b.t
    requires Meaning(ShapeOf(a.t, g), a.cv) == Meaning(ShapeOf(b.t, g), b.cv)
    ensures Encode(g, a.t, a.cv) == Encode(g, b.t, b.cv)
  {
    SameWord(a.cv.tab[0], b.cv.tab[0]);
  }

  lemma Assoc(a: seq<Word>, b: seq<Word>, c: seq<Word>)
    ensures (a + b) + c == a + (b + c)
  {}

  lemma {:induction false} EncodeAllAppend(g: Target, a: seq<Saved>, b: seq<Saved>)
    requires TargetOk(g)
    ensures EncodeAll(g, a + b) == EncodeAll(g, a) + EncodeAll(g, b)
  {
    hide Encode;
    if a == [] {
      assert a + b == b;
    } else {
      assert (a + b)[1..] == a[1..] + b;
      EncodeAllAppend(g, a[1..], b);
    }
  }

  // ---- line numbers ----------------------------------------------------------------------------------

  /** The kinds and values with the line each was on, taken from the line tokens between them. */
  function Located(vs: seq<(int, Value)>): seq<(int, int, Value)> {
    if vs == [] then []
    else
      var n := |vs| - 1;
      if vs[n].0 == TOK_LINENUM then Located(vs[..n])
      else Located(vs[..n]) + [(LineAt(vs[..n]), vs[n].0, vs[n].1)]
  }

  /** The line after these tokens; -1 before any line token. */
  function LineAt(vs: seq<(int, Value)>): int {
    if vs == [] then -1
    else
      var last := vs[|vs| - 1];
      if last.0 == TOK_LINENUM && last.1.Num? then last.1.i else LineAt(vs[..|vs| - 1])
  }

  lemma ShownSnoc(g: Target, ks: seq<Saved>, k: Saved)
    requires TargetOk(g)
    ensures Shown(g, ks + [k]) == Shown(g, ks) + [Show(g, k)]
    ensures EncodeAll(g, ks + [k]) == EncodeAll(g, ks) + Encode(g, k.t, k.cv)
  {
    hide Meaning, Encode;
    EncodeAllAppend(g, ks, [k]);
    assert [k][1..] == [];
  }

  lemma LocatedSnoc(vs: seq<(int, Value)>, v: (int, Value))
    ensures Located(vs + [v]) == if v.0 == TOK_LINENUM then Located(vs) else Located(vs) + [(LineAt(vs), v.0, v.1)]
    ensures LineAt(vs + [v]) == if v.0 == TOK_LINENUM && v.1.Num? then v.1.i else LineAt(vs)
  {
    assert (vs + [v])[..|vs|] == vs;
  }

  // ---- the growing buffer ----------------------------------------------------------------------------

  class TokenString {
    const g: Target
    var str: array<Word>
    var len: nat
    var lastLine: int
    ghost var toks: seq<Saved>

    ghost predicate Valid()
      reads this, str
      ensures Valid() ==> len <= str.Length
    {
      && TargetOk(g) && len <= str.Length
      && str[..len] == EncodeAll(g, toks)
    }

    /** The stored line is the one a reader would be on. */
    ghost predicate LineOk()
      reads this
    {
      TargetOk(g) && lastLine == LineAt(Shown(g, toks))
    }

    /** tok_str_new: nothing allocated yet. */
    constructor (g: Target)
      requires TargetOk(g)
      ensures Valid() && LineOk() && fresh(str) && this.g == g && len == 0 && toks == []
    {
      this.g, len, lastLine, toks := g, 0, -1, [];
      str := new Word[0];
      new;
      assert Shown(g, []) == [];
    }

    /** tok_str_realloc: the length doubles from 16 until it suffices. */
    method Realloc(newSize: nat)
      requires len <= str.Length
      modifies this`str
      ensures len <= str.Length && newSize <= str.Length && str[..len] == old(str[..len])
      ensures str == old(str) || fresh(str)
      ensures str.Length >= 16 && (old(str.Length) >= 16 && old(str.Length) >= newSize ==> str == old(str))
      ensures str.Length in {16, old(str.Length)} || str.Length < 2 * newSize
    {
      var size := if str.Length < 16 then 16 else str.Length;
      while size < newSize
        invariant size >= 16 && size >= str.Length && (size in {16, str.Length} || size < 2 * newSize)
        invariant str.Length >= 16 && str.Length >= newSize ==> size == str.Length
      {
        size := size * 2;
      }
      if size > str.Length {
        var grown := new Word[size];
        forall i | 0 <= i < str.Length {
          grown[i] := str[i];
        }
        str := grown;
      }
    }

    /** Stores words one after the other where the space is known to suffice. */
    method Store(ws: seq<Word>, at: nat)
      requires at + |ws| <= str.Length
      modifies str
      ensures str[..at + |ws|] == old(str[..at]) + ws
    {
      for i := 0 to |ws|
        invariant str[..at + i] == old(str[..at]) + ws[..i]
      {
        str[at + i] := ws[i];
      }
    }

    /** The string case: its size, then its bytes over whatever was there, the last
        word cleared first. */
    method StoreText(text: seq<byte>, at: nat)
      requires IsInt(|text|) && at + 1 + WordsFor(|text|) <= str.Length
      modifies str
      ensures str[..at + 1 + WordsFor(|text|)] == old(str[..at]) + ([ToWord(|text|)] + Pack(text))
    {
      hide ToWord;
      var words := WordsFor(|text|);
      str[at] := ToWord(|text|);
      ClearedSize(text);
      str[at + words] := ZERO;
      for j := 0 to words
        invariant str[..at] == old(str[..at]) && str[at] == ToWord(|text|)
        invariant j < words ==> str[at + words] == ZERO
        invariant forall i :: 0 <= i < j ==> str[at + 1 + i] == Pack(text)[i]
      {
        str[at + 1 + j] := Overlay(str[at + 1 + j], text, j);
      }
      assert str[at + 1..at + 1 + words] == Pack(text);
    }

    /** Clearing the last word before a text of no bytes clears its size, which is 0 anyway. */
    lemma ClearedSize(text: seq<byte>)
      ensures WordsFor(|text|) == 0 ==> ToWord(|text|) == ZERO
    {}

    /** tok_str_add2: the words depend on the token only, not on the old memory. */
    method Add2(t: int, cv: CValue)
      requires Valid() && TokOk(Tok(t, cv))
      modifies this`str, this`len, this`toks, str
      ensures Valid() && (str == old(str) || fresh(str))
      ensures toks == old(toks) + [Tok(t, cv)] && str[..len] == old(str[..len]) + Encode(g, t, cv)
    {
      hide Pack, ToWord, EncodeAll;
      ghost var before := str[..len];
      var shape := ShapeOf(t, g);
      if len + TOK_MAX_SIZE >= str.Length {
        Realloc(len + TOK_MAX_SIZE + 1);
      }
      str[len] := ToWord(t);
      len := len + 1;
      ghost var head := str[..len];
      assert head == before + [ToWord(t)];
      StoreValue(shape, cv);
      Assoc(before, [ToWord(t)], Payload(shape, cv));
      ShownSnoc(g, toks, Tok(t, cv));
      toks := toks + [Tok(t, cv)];
    }

    /** The switch of tok_str_add2. */
    method StoreValue(shape: Shape, cv: CValue)
      requires CValueOk(cv) && (shape.Raw? ==> shape.n <= TOK_MAX_SIZE)
      requires len + TOK_MAX_SIZE <= str.Length
      modifies this`str, this`len, str
      ensures len <= str.Length && (str == old(str) || fresh(str))
      ensures str[..len] == old(str[..len]) + Payload(shape, cv)
    {
      hide Pack, ToWord;
      if shape == Text {
        var words := 1 + WordsFor(|cv.text|);
        if len + words >= str.Length {
          Realloc(len + words + 1);
        }
        StoreText(cv.text, len);
        len := len + words;
      } else {
        var ws := if shape.SignedInt? || shape.UnsignedInt? then [cv.tab[0]] else if shape.Raw? then cv.tab[..shape.n] else [];
        Store(ws, len);
        len := len + |ws|;
      }
    }

    /** tok_str_add_tok: a line token first when the line has changed. */
    method AddTok(line: nat, t: int, cv: CValue)
      requires Valid() && LineOk() && TokOk(Tok(t, cv)) && t != TOK_LINENUM && IsInt(line)
      modifies this`str, this`len, this`toks, this`lastLine, str
      ensures Valid() && LineOk() && (str == old(str) || fresh(str))
      ensures Located(Shown(g, toks)) == Located(old(Shown(g, toks))) + [(line as int, t, Meaning(ShapeOf(t, g), cv))]
    {
      hide Located, LineAt, EncodeAll, ToWord, Signed, Encode;
      ghost var was := toks;
      if line != lastLine {
        lastLine := line;
        var cval := CValue([ToWord(line), ZERO, ZERO, ZERO], []);
        WordHolds(line);
        Add2(TOK_LINENUM, cval);
        ShownSnoc(g, was, Tok(TOK_LINENUM, cval));
        LocatedSnoc(Shown(g, was), (TOK_LINENUM, Num(line)));
      }
      ghost var mid := toks;
      Add2(t, cv);
      ShownSnoc(g, mid, Tok(t, cv));
      LocatedSnoc(Shown(g, mid), (t, Meaning(ShapeOf(t, g), cv)));
    }

    /** TOK_GET over tok_get: one token from the saved words. */
    method TokGet(p: nat, cv: CValue) returns (t: int, q: nat, v: CValue)
      requires TargetOk(g) && p <= len <= str.Length && CValueOk(cv)
      requires Decode(g, str[p..len], cv).Some?
      ensures p < q <= len && Decode(g, str[p..len], cv) == Some((t, v, str[q..len]))
    {
      hide Signed;
      t, q, v := Signed(str[p]), p + 1, cv;
      assert str[p..len][1..] == str[q..len];
      if HasValue(t) {
        q, v := GetValue(ShapeOf(t, g), q, cv);
      }
    }

    method GetValue(shape: Shape, p: nat, cv: CValue) returns (q: nat, v: CValue)
      requires p <= len <= str.Length && CValueOk(cv) && (shape.Raw? ==> shape.n <= TOK_MAX_SIZE)
      requires TakeValue(shape, str[p..len], cv).Some?
      ensures p <= q <= len && TakeValue(shape, str[p..len], cv) == Some((v, str[q..len]))
    {
      hide Signed, Unpack;
      q, v := p, cv;
      ghost var r := str[p..len];
      match shape
      case Bare =>
      case SignedInt =>
        v := v.(tab := [str[q], if str[q].b3 >= 128 then ONES else ZERO] + v.tab[2..]);
        Cut(r, p, 1);
        q := q + 1;
      case UnsignedInt =>
        v := v.(tab := [str[q], ZERO] + v.tab[2..]);
        Cut(r, p, 1);
        q := q + 1;
      case Missing =>
        v := v.(tab := [str[q]] + v.tab[1..]);
        Cut(r, p, 1);
        assert r[..1] == [str[q]];
        q := q + 1;
      case Raw(n) =>
        var tab := CopyWords(q, n, v.tab);
        v := v.(tab := tab);
        Cut(r, p, n);
        q := q + n;
      case Text =>
        q, v := GetText(q, cv);
    }

    method GetText(p: nat, cv: CValue) returns (q: nat, v: CValue)
      requires p <= len <= str.Length && CValueOk(cv)
      requires TakeValue(Text, str[p..len], cv).Some?
      ensures p <= q <= len && TakeValue(Text, str[p..len], cv) == Some((v, str[q..len]))
    {
      hide Signed, Unpack;
      var size := Signed(str[p]);
      ghost var r := str[p..len];
      Cut(r, p, 1);
      Cut(r, p, 1 + WordsFor(size));
      v := cv.(text := Unpack(str[p + 1..len], size));
      q := p + 1 + WordsFor(size);
    }

    lemma Cut(r: seq<Word>, p: nat, k: nat)
      requires p + k <= len <= str.Length && r == str[p..len]
      ensures r[k..] == str[p + k..len] && r[..k] == str[p..p + k]
    {}

    /** The copy loop of tok_get. */
    method CopyWords(p: nat, n: nat, tab: seq<Word>) returns (r: seq<Word>)
      requires p + n <= str.Length && n <= |tab|
      ensures r == str[p..p + n] + tab[n..]
    {
      r := tab;
      for i := 0 to n
        invariant r == str[p..p + i] + tab[i..]
      {
        r := r[i := str[p + i]];
      }
    }

    /** Reading everything back. */
    method ReadAll(cv0: CValue) returns (vs: seq<(int, Value)>)
      requires Valid() && CValueOk(cv0) && Readable(toks)
      ensures vs == Shown(g, toks)
    {
      hide Meaning, Decode, DecodeAll, EncodeAll, Shown, Readable, Canonical;
      StreamReadsBack(g, toks, cv0);
      ghost var all := Shown(g, toks);
      vs := [];
      var p, cv := 0, cv0;
      assert str[0..len] == str[..len];
      assert [] + all == all;
      while p < len
        invariant p <= len && CValueOk(cv) && DecodeAll(g, str[p..len], cv).Some?
        invariant vs + DecodeAll(g, str[p..len], cv).value == all
      {
        DecodeAllStep(g, str[p..len], cv);
        var t;
        t, p, cv := TokGet(p, cv);
        var v := (t, Meaning(ShapeOf(t, g), cv));
        assert vs + ([v] + DecodeAll(g, str[p..len], cv).value) == (vs + [v]) + DecodeAll(g, str[p..len], cv).value;
        vs := vs + [v];
      }
      assert str[p..len] == [] && vs + [] == vs;
      DecodeAllEnd(g, cv);
    }
  }
}
