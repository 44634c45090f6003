/** ELF symbols as values: the linear-search reference for lookup, the
    resolution of two same-named symbols, and the meaning of adding symbols to
    a table one after the other. */
module ElfSymbols {
  const STB_LOCAL: nat := 0
  const STB_GLOBAL: nat := 1
  const STB_WEAK: nat := 2
  const STT_NOTYPE: nat := 0
  const STV_DEFAULT: nat := 0
  const STV_INTERNAL: nat := 1
  const STV_HIDDEN: nat := 2
  const STV_PROTECTED: nat := 3
  const SHN_UNDEF: nat := 0
  const SHN_LORESERVE: nat := 0xff00
  const SHN_ABS: nat := 0xfff1
  const SHN_COMMON: nat := 0xfff2

  /** st_other: visibility in the low bits, the assembler's `.set` mark, the rest. */
  datatype Other = Other(vis: nat, asmSet: bool, rest: nat)

  datatype Attr = Attr(value: int, size: int, bind: nat, typ: nat, other: Other, shndx: nat)

  datatype Entry = Entry(name: string, attr: Attr)

  /** What set_elf_sym reads besides its arguments: the number of .bss and
      whether the table is the private one for DLL symbols (SHF_DYNSYM). */
  datatype Config = Config(bss: nat, dynsym: bool)

  const NULL_SYMBOL := Entry("", Attr(0, 0, STB_LOCAL, STT_NOTYPE, Other(STV_DEFAULT, false, 0), SHN_UNDEF))

  predicate Global(a: Attr) { a.bind != STB_LOCAL }

  predicate Defined(a: Attr) { a.shndx != SHN_UNDEF }

  // ---- lookup by linear search -------------------------------------------

  /** The highest non-local symbol below `limit` with this name, 0 if none. */
  function Latest(tab: seq<Entry>, name: string, limit: nat): (k: nat)
    requires limit <= |tab|
    ensures k != 0 ==> k < limit && tab[k].attr.bind != STB_LOCAL && tab[k].name == name
    ensures forall j :: k < j < limit && 0 < j ==> !(tab[j].attr.bind != STB_LOCAL && tab[j].name == name)
  {
    if limit <= 1 then 0
    else if Global(tab[limit - 1].attr) && tab[limit - 1].name == name then limit - 1
    else Latest(tab, name, limit - 1)
  }

  // ---- two symbols of one name -------------------------------------------

  function MergedVisibility(old_: nat, new_: nat): nat {
    if old_ == STV_DEFAULT then new_
    else if new_ == STV_DEFAULT then old_
    else if old_ < new_ then old_ else new_
  }

  function Patch(e: Attr, n: Attr): Attr {
    e.(bind := n.bind, typ := n.typ, shndx := n.shndx, value := n.value, size := n.size)
  }

  predicate CommonOrBss(shndx: nat, cfg: Config) { shndx == SHN_COMMON || shndx == cfg.bss }

  datatype Verdict = Keep | Replace | Clash

  /** The branches of set_elf_sym for an existing defined symbol. */
  function Judge(e: Attr, n: Attr, cfg: Config): Verdict {
    if !Defined(n) then Keep
    else if n.bind == STB_GLOBAL && e.bind == STB_WEAK then Replace
    else if n.bind == STB_WEAK && e.bind == STB_GLOBAL then Keep
    else if n.bind == STB_WEAK && e.bind == STB_WEAK then Keep
    else if n.other.vis == STV_HIDDEN || n.other.vis == STV_INTERNAL then Keep
    else if CommonOrBss(e.shndx, cfg) && n.shndx < SHN_LORESERVE && n.shndx != cfg.bss then Replace
    else if CommonOrBss(n.shndx, cfg) then Keep
    else if cfg.dynsym then Keep
    else if e.other.asmSet then Replace
    else Clash
  }

  function Resolve(e: Attr, n: Attr, cfg: Config): Attr {
    if e == n then e
    else if Defined(e) then
      var e1 := e.(other := e.other.(vis := MergedVisibility(e.other.vis, n.other.vis)));
      if Judge(e1, n, cfg) == Replace then Patch(e1, n) else e1
    else Patch(e.(other := n.other), n)
  }

  predicate Clashes(e: Attr, n: Attr, cfg: Config) {
    e != n && Defined(e) && Judge(e, n, cfg) == Clash
  }

  /** No sequence of later symbols takes a definition away. */
  lemma {:induction false} DefinedStaysDefined(e: Attr, rest: seq<Attr>, cfg: Config)
    requires Defined(e)
    ensures Defined(Fold(e, rest, cfg).attr)
  {
    if rest != [] {
      DefinedStaysDefined(e, rest[..|rest| - 1], cfg);
    }
  }

  // ---- a whole sequence of symbols of one name ---------------------------

  datatype Folded = Folded(attr: Attr, clashes: nat)

  /** e, then every symbol of `rest` in order. */
  function Fold(e: Attr, rest: seq<Attr>, cfg: Config): Folded {
    if rest == [] then Folded(e, 0)
    else
      var f := Fold(e, rest[..|rest| - 1], cfg);
      var n := rest[|rest| - 1];
      Folded(Resolve(f.attr, n, cfg), f.clashes + if Clashes(f.attr, n, cfg) then 1 else 0)
  }

  ghost predicate Given(e: Attr, rest: seq<Attr>, vis: nat) {
    e.other.vis == vis || exists n :: n in rest && n.other.vis == vis
  }

  /** Once defined, a symbol ends with the most constraining visibility of all that
      were ever given for its name, in whatever order: internal, hidden, protected. */
  lemma {:induction false} VisibilityIsStrictest(e: Attr, rest: seq<Attr>, cfg: Config)
    requires Defined(e) && e.other.vis < 4 && forall n :: n in rest ==> n.other.vis < 4
    ensures Fold(e, rest, cfg).attr.other.vis ==
            if Given(e, rest, STV_INTERNAL) then STV_INTERNAL
            else if Given(e, rest, STV_HIDDEN) then STV_HIDDEN
            else if Given(e, rest, STV_PROTECTED) then STV_PROTECTED
            else STV_DEFAULT
  {
    if rest != [] {
      var init, last := rest[..|rest| - 1], rest[|rest| - 1];
      assert rest == init + [last];
      assert forall n :: n in init ==> n in rest;
      VisibilityIsStrictest(e, init, cfg);
      DefinedStaysDefined(e, init, cfg);
      GivenSnoc(e, init, last);
      assert last in rest;
      hide Given, Defined, Fold;
      VisibilityStep(Fold(e, init, cfg).attr, last, cfg);
      assert Fold(e, rest, cfg).attr == Resolve(Fold(e, init, cfg).attr, last, cfg) by { LastOf(e, init, last, cfg); }
    }
  }

  lemma LastOf(e: Attr, init: seq<Attr>, last: Attr, cfg: Config)
    ensures Fold(e, init + [last], cfg).attr == Resolve(Fold(e, init, cfg).attr, last, cfg)
  {
    assert (init + [last])[..|init|] == init;
  }

  lemma GivenSnoc(e: Attr, init: seq<Attr>, last: Attr)
    ensures forall vis: nat :: Given(e, init + [last], vis) <==> Given(e, init, vis) || last.other.vis == vis
  {
    forall vis: nat ensures Given(e, init + [last], vis) <==> Given(e, init, vis) || last.other.vis == vis {
      if Given(e, init, vis) && e.other.vis != vis {
        var n :| n in init && n.other.vis == vis;
        assert n in init + [last];
      }
      assert last in init + [last];
    }
  }

  lemma VisibilityStep(e: Attr, n: Attr, cfg: Config)
    requires Defined(e)
    ensures Resolve(e, n, cfg).other.vis == if e == n then e.other.vis else MergedVisibility(e.other.vis, n.other.vis)
  {}

  /** undefined < weak < strong common or bss < strong elsewhere */
  function Rank(a: Attr, cfg: Config): nat {
    if !Defined(a) then 0
    else if a.bind == STB_WEAK then 1
    else if CommonOrBss(a.shndx, cfg) then 2
    else 3
  }

  /** A non-local symbol. */
  predicate Linkable(a: Attr) { a.bind == STB_GLOBAL || a.bind == STB_WEAK }

  predicate Visible(a: Attr) { a.other.vis != STV_HIDDEN && a.other.vis != STV_INTERNAL }

  /** s[k] can become the definition of the name: it is strong outside common and
      bss, and not preceded by any strong definition, or else visible and in a section
      of its own; absolute and other reserved ones only after a `.set`. */
  ghost predicate Taking(s: seq<Attr>, k: nat, cfg: Config) {
    && k < |s| && Rank(s[k], cfg) == 3
    && ((forall i :: 0 <= i < k ==> Rank(s[i], cfg) <= 1)
        || (Visible(s[k]) && (s[k].shndx < SHN_LORESERVE || Overrides(s[..k], cfg))))
  }

  ghost predicate FirstTaking(s: seq<Attr>, k: nat, cfg: Config) {
    Taking(s, k, cfg) && forall i :: 0 <= i < k ==> !Taking(s, i, cfg)
  }

  ghost predicate LastTaking(s: seq<Attr>, k: nat, cfg: Config) {
    Taking(s, k, cfg) && forall i :: k < i < |s| ==> !Taking(s, i, cfg)
  }

  ghost predicate NoneTaking(s: seq<Attr>, cfg: Config) { forall i :: 0 <= i < |s| ==> !Taking(s, i, cfg) }

  function FirstDefined(s: seq<Attr>): (d: nat)
    ensures d <= |s| && (d < |s| ==> Defined(s[d])) && forall i :: 0 <= i < d ==> !Defined(s[i])
  {
    if s == [] then 0
    else
      var n := |s| - 1;
      var d := FirstDefined(s[..n]);
      if d < n || Defined(s[n]) then d else |s|
  }

  /** The most constraining visibility given. */
  function Strictest(s: seq<Attr>): nat {
    if s == [] then STV_DEFAULT else MergedVisibility(Strictest(s[..|s| - 1]), s[|s| - 1].other.vis)
  }

  /** st_other after the symbols s: that of the first definition, with the most
      constraining visibility since; the last one's while nothing is defined. */
  function OtherOf(s: seq<Attr>): Other
    requires s != []
  {
    var d := FirstDefined(s);
    if d == |s| then s[|s| - 1].other else s[d].other.(vis := Strictest(s[d..]))
  }

  /** Later definitions replace the first: it came from a `.set`, and DLL symbols
      are not concerned. */
  predicate Overrides(s: seq<Attr>, cfg: Config)
    requires s != []
  {
    OtherOf(s).asmSet && !cfg.dynsym
  }

  /** s[k] is the symbol whose definition the name has in the end: the first taking
      one (the last one after a `.set`); if there is none, the first of the highest
      rank below; if nothing is defined, the last. */
  ghost predicate Keeps(s: seq<Attr>, k: nat, cfg: Config) {
    && k < |s|
    && if !NoneTaking(s, cfg) then (if Overrides(s, cfg) then LastTaking(s, k, cfg) else FirstTaking(s, k, cfg))
       else if Rank(s[k], cfg) == 0 then k == |s| - 1 && forall i :: 0 <= i < |s| ==> Rank(s[i], cfg) == 0
       else
         && Rank(s[k], cfg) < 3 && (forall i :: 0 <= i < k ==> Rank(s[i], cfg) < Rank(s[k], cfg))
         && (forall i :: 0 <= i < |s| ==> Rank(s[i], cfg) <= Rank(s[k], cfg) || Rank(s[i], cfg) == 3)
  }

  /** s[j] is reported: a visible strong definition that is not, with its st_other,
      the one already taken, or finds none taken and cannot be taken itself. */
  ghost predicate ReportedAt(s: seq<Attr>, j: nat, cfg: Config) {
    && 0 < j < |s| && !cfg.dynsym && !OtherOf(s[..j]).asmSet && Rank(s[j], cfg) == 3 && Visible(s[j])
    && ((forall k: nat :: k <= j ==> !Taking(s, k, cfg))
        || exists k: nat :: k < j && FirstTaking(s, k, cfg) && s[j] != s[k].(other := OtherOf(s[..j])))
  }

  lemma OtherStep(p: seq<Attr>, n: Attr)
    requires p != []
    ensures OtherOf(p + [n]) ==
            if FirstDefined(p) == |p| then n.other
            else OtherOf(p).(vis := MergedVisibility(OtherOf(p).vis, n.other.vis))
    ensures FirstDefined(p) < |p| ==> OtherOf(p + [n]).asmSet == OtherOf(p).asmSet
  {
    hide FirstDefined, Strictest, MergedVisibility;
    var d := FirstDefined(p);
    FirstDefinedStep(p, n);
    TailSnoc(p, n, d);
    StrictestStep(p[d..], n);
    FromNothing(n.other.vis);
  }

  lemma TailSnoc(p: seq<Attr>, n: Attr, d: nat)
    requires d <= |p|
    ensures (p + [n])[d..] == p[d..] + [n] && (p + [n])[|p|] == n && (d < |p| ==> (p + [n])[d] == p[d])
    ensures d == |p| ==> p[d..] == []
  {}

  lemma FromNothing(vis: nat)
    ensures MergedVisibility(STV_DEFAULT, vis) == vis
  {}

  lemma FirstDefinedStep(p: seq<Attr>, n: Attr)
    ensures FirstDefined(p + [n]) == if FirstDefined(p) < |p| || Defined(n) then FirstDefined(p) else |p| + 1
  {
    assert (p + [n])[..|p|] == p;
  }

  lemma StrictestStep(p: seq<Attr>, n: Attr)
    ensures Strictest(p + [n]) == MergedVisibility(Strictest(p), n.other.vis) && Strictest([]) == STV_DEFAULT
  {
    assert (p + [n])[..|p|] == p;
  }

  lemma TakingStep(p: seq<Attr>, n: Attr, cfg: Config)
    ensures forall i :: 0 <= i < |p| ==> (Taking(p + [n], i, cfg) <==> Taking(p, i, cfg))
    ensures forall i :: 0 <= i < |p| ==> (FirstTaking(p + [n], i, cfg) <==> FirstTaking(p, i, cfg))
    ensures NoneTaking(p + [n], cfg) <==> NoneTaking(p, cfg) && !Taking(p + [n], |p|, cfg)
  {
    hide Overrides;
    assert forall i :: 0 <= i < |p| ==> (p + [n])[i] == p[i] && (p + [n])[..i] == p[..i];
  }

  /** What is defined is ranked, and the keeper is defined if anything is. */
  lemma KeeperRank(p: seq<Attr>, k: nat, cfg: Config)
    requires p != [] && Keeps(p, k, cfg)
    ensures Defined(p[k]) <==> FirstDefined(p) < |p|
    ensures Rank(p[k], cfg) == 3 <==> !NoneTaking(p, cfg)
    ensures Rank(p[k], cfg) <= 1 ==> forall i :: 0 <= i < |p| ==> Rank(p[i], cfg) <= 1
  {
    var d := FirstDefined(p);
    if Rank(p[k], cfg) <= 1 {
      OnlyWeak(p, k, cfg);
    }
  }

  /** The first strong definition of all is always taking or of rank 2. */
  lemma {:induction false} OnlyWeak(p: seq<Attr>, k: nat, cfg: Config)
    requires Keeps(p, k, cfg) && Rank(p[k], cfg) <= 1
    ensures forall i :: 0 <= i < |p| ==> Rank(p[i], cfg) <= 1
  {
    assert NoneTaking(p, cfg);
    LowRanks(p, |p|, cfg);
  }

  lemma {:induction false} LowRanks(p: seq<Attr>, upTo: nat, cfg: Config)
    requires upTo <= |p| && NoneTaking(p, cfg) && forall i :: 0 <= i < |p| ==> Rank(p[i], cfg) <= 1 || Rank(p[i], cfg) == 3
    ensures forall i :: 0 <= i < upTo ==> Rank(p[i], cfg) <= 1
  {
    if upTo > 0 {
      LowRanks(p, upTo - 1, cfg);
      assert !Taking(p, upTo - 1, cfg);
    }
  }

  lemma TakingNow(p: seq<Attr>, n: Attr, k: nat, cfg: Config)
    requires p != [] && Keeps(p, k, cfg)
    ensures Taking(p + [n], |p|, cfg) <==>
            Rank(n, cfg) == 3 && (Rank(p[k], cfg) <= 1 || (Visible(n) && (n.shndx < SHN_LORESERVE || Overrides(p, cfg))))
  {
    hide Overrides, Visible;
    KeeperRank(p, k, cfg);
    var s := p + [n];
    assert s[..|p|] == p && s[|p|] == n;
    assert forall i :: 0 <= i < |p| ==> s[i] == p[i];
    assert (forall i :: 0 <= i < |p| ==> Rank(s[i], cfg) <= 1) <==> Rank(p[k], cfg) <= 1;
  }

  /** The symbol in the table after p. */
  function Survivor(p: seq<Attr>, k: nat): Attr
    requires k < |p|
  {
    p[k].(other := OtherOf(p))
  }

  /** One more symbol after an undefined one: it stands as it is. */
  lemma KeeperUndefined(p: seq<Attr>, n: Attr, k: nat, cfg: Config)
    requires p != [] && Keeps(p, k, cfg) && Linkable(n) && Rank(p[k], cfg) == 0
    ensures Keeps(p + [n], |p|, cfg) && Resolve(Survivor(p, k), n, cfg) == Survivor(p + [n], |p|)
  {
    hide FirstDefined, Strictest, OtherOf;
    var s := p + [n];
    OtherStep(p, n);
    TakingStep(p, n, cfg);
    KeeperRank(p, k, cfg);
    assert forall i :: 0 <= i < |p| ==> s[i] == p[i];
    assert Taking(s, |p|, cfg) <==> Rank(n, cfg) == 3;
  }

  /** After a weak definition, or one in common or bss. */
  lemma KeeperLow(p: seq<Attr>, n: Attr, k: nat, cfg: Config) returns (l: nat)
    requires p != [] && Keeps(p, k, cfg) && Linkable(n) && Linkable(p[k]) && 0 < Rank(p[k], cfg) < 3
    ensures Keeps(p + [n], l, cfg) && Resolve(Survivor(p, k), n, cfg) == Survivor(p + [n], l)
  {
    hide FirstDefined, Strictest, OtherOf;
    var s := p + [n];
    OtherStep(p, n);
    TakingStep(p, n, cfg);
    KeeperRank(p, k, cfg);
    assert forall i :: 0 <= i < |p| ==> s[i] == p[i];
    TakingNow(p, n, k, cfg);
    l := if Taking(s, |p|, cfg) || (Rank(n, cfg) == 2 && Rank(p[k], cfg) == 1) then |p| else k;
  }

  /** After a strong definition outside common and bss. */
  lemma KeeperStrong(p: seq<Attr>, n: Attr, k: nat, cfg: Config) returns (l: nat)
    requires p != [] && Keeps(p, k, cfg) && Linkable(n) && Linkable(p[k]) && Rank(p[k], cfg) == 3
    ensures Keeps(p + [n], l, cfg) && Resolve(Survivor(p, k), n, cfg) == Survivor(p + [n], l)
  {
    hide FirstDefined, Strictest, OtherOf;
    var s := p + [n];
    OtherStep(p, n);
    TakingStep(p, n, cfg);
    KeeperRank(p, k, cfg);
    assert forall i :: 0 <= i < |p| ==> s[i] == p[i];
    TakingNow(p, n, k, cfg);
    assert Overrides(s, cfg) == Overrides(p, cfg);
    l := if Taking(s, |p|, cfg) && Overrides(s, cfg) then |p| else k;
  }

  /** One more symbol: the survivor is again the one to keep. */
  lemma KeeperStep(p: seq<Attr>, n: Attr, k: nat, cfg: Config) returns (l: nat)
    requires p != [] && Keeps(p, k, cfg) && Linkable(n) && Linkable(p[k])
    ensures Keeps(p + [n], l, cfg) && Resolve(Survivor(p, k), n, cfg) == Survivor(p + [n], l)
  {
    hide Survivor, Resolve;
    if Rank(p[k], cfg) == 0 {
      KeeperUndefined(p, n, k, cfg);
      l := |p|;
    } else if Rank(p[k], cfg) < 3 {
      l := KeeperLow(p, n, k, cfg);
    } else {
      l := KeeperStrong(p, n, k, cfg);
    }
  }

  /** A clash with the survivor is a report. */
  lemma ReportNow(p: seq<Attr>, n: Attr, k: nat, cfg: Config)
    requires p != [] && Keeps(p, k, cfg) && Linkable(n) && Linkable(p[k])
    ensures Clashes(Survivor(p, k), n, cfg) <==> ReportedAt(p + [n], |p|, cfg)
  {
    hide FirstDefined, Strictest, OtherOf, Taking;
    var s := p + [n];
    TakingStep(p, n, cfg);
    TakingNow(p, n, k, cfg);
    KeeperRank(p, k, cfg);
    assert s[..|p|] == p && s[|p|] == n && s[k] == p[k];
    if NoneTaking(p, cfg) {
      assert (forall i: nat :: i <= |p| ==> !Taking(s, i, cfg)) <==> NoneTaking(s, cfg);
      assert forall i: nat :: i < |p| ==> !FirstTaking(s, i, cfg);
    } else {
      assert exists i: nat :: i <= |p| && Taking(s, i, cfg);
      if !Overrides(p, cfg) {
        assert FirstTaking(s, k, cfg);
      }
    }
  }

  /** Earlier reports stay as they are. */
  lemma ReportBefore(p: seq<Attr>, n: Attr, j: nat, cfg: Config)
    requires j < |p|
    ensures ReportedAt(p + [n], j, cfg) <==> ReportedAt(p, j, cfg)
  {
    hide FirstDefined, Strictest, OtherOf, Taking;
    TakingStep(p, n, cfg);
    var s := p + [n];
    assert s[..j] == p[..j] && s[j] == p[j];
    assert forall k :: 0 <= k < j ==> s[k] == p[k];
  }

  lemma ReportStep(p: seq<Attr>, n: Attr, cfg: Config)
    ensures (exists j: nat :: ReportedAt(p + [n], j, cfg)) <==> (exists j: nat :: ReportedAt(p, j, cfg)) || ReportedAt(p + [n], |p|, cfg)
  {
    hide ReportedAt;
    ReportBound(p, cfg);
    ReportBound(p + [n], cfg);
    forall j: nat | j < |p| ensures ReportedAt(p + [n], j, cfg) <==> ReportedAt(p, j, cfg) {
      ReportBefore(p, n, j, cfg);
    }
  }

  /** Every sequence of non-local symbols of one name: the definition that
      is left and its st_other, and exactly when "defined twice" is reported. */
  lemma {:induction false} ResolutionExactly(s: seq<Attr>, cfg: Config)
    requires s != [] && forall a :: a in s ==> a.bind == STB_GLOBAL || a.bind == STB_WEAK
    ensures exists k: nat :: Keeps(s, k, cfg) && Fold(s[0], s[1..], cfg).attr == Survivor(s, k)
    ensures Fold(s[0], s[1..], cfg).clashes > 0 <==> exists j: nat :: ReportedAt(s, j, cfg)
  {
    if |s| == 1 {
      OneSymbol(s, cfg);
    } else {
      hide Keeps, ReportedAt, Survivor, Clashes, Resolve;
      var p, n := s[..|s| - 1], s[|s| - 1];
      assert p + [n] == s && forall a :: a in p ==> a in s;
      ResolutionExactly(p, cfg);
      FoldSnoc(p, n);
      var k: nat :| Keeps(p, k, cfg) && Fold(p[0], p[1..], cfg).attr == Survivor(p, k);
      KeeperBound(p, k, cfg);
      var l := KeeperStep(p, n, k, cfg);
      ReportNow(p, n, k, cfg);
      ReportStep(p, n, cfg);
    }
  }

  lemma KeeperBound(p: seq<Attr>, k: nat, cfg: Config)
    requires Keeps(p, k, cfg)
    ensures k < |p|
  {}

  lemma ReportBound(s: seq<Attr>, cfg: Config)
    ensures forall j: nat :: ReportedAt(s, j, cfg) ==> 0 < j < |s|
  {}

  lemma OneSymbol(s: seq<Attr>, cfg: Config)
    requires |s| == 1
    ensures Keeps(s, 0, cfg) && Fold(s[0], s[1..], cfg) == Folded(Survivor(s, 0), 0)
    ensures forall j: nat :: !ReportedAt(s, j, cfg)
  {
    assert s[..0] == [] && s[0..] == s;
    assert Rank(s[0], cfg) == 3 ==> Taking(s, 0, cfg);
    assert Strictest(s) == s[0].other.vis;
  }

  // ---- symbols that share one visibility ----------------------------------

  /** `o` is the visible st_other that all share. */
  ghost predicate Ordinary(a: Attr, o: Other) {
    && Linkable(a) && (a.shndx < SHN_LORESERVE || a.shndx == SHN_COMMON)
    && a.other == o && o.vis != STV_HIDDEN && o.vis != STV_INTERNAL && !o.asmSet
  }

  ghost predicate FirstOfTopRank(s: seq<Attr>, k: nat, cfg: Config) {
    && k < |s|
    && (forall i :: 0 <= i < |s| ==> Rank(s[i], cfg) <= Rank(s[k], cfg))
    && (forall i :: 0 <= i < k ==> Rank(s[i], cfg) < Rank(s[k], cfg))
  }

  ghost predicate TwoStrongDiffer(s: seq<Attr>, cfg: Config) {
    exists i, j :: 0 <= i < |s| && 0 <= j < |s| && Rank(s[i], cfg) == 3 && Rank(s[j], cfg) == 3 && s[i] != s[j]
  }

  lemma {:induction false} SharedOther(s: seq<Attr>, o: Other)
    requires s != [] && forall a :: a in s ==> a.other == o
    ensures Strictest(s) == o.vis && OtherOf(s) == o
  {
    if |s| > 1 {
      SharedStrictest(s, o);
      var d := FirstDefined(s);
      if d < |s| {
        SharedStrictest(s[d..], o);
      }
    } else {
      assert s[..0] == [];
    }
  }

  lemma {:induction false} SharedStrictest(s: seq<Attr>, o: Other)
    requires s != [] && forall a :: a in s ==> a.other == o
    ensures Strictest(s) == o.vis
  {
    if |s| > 1 {
      SharedStrictest(s[..|s| - 1], o);
    } else {
      assert s[..0] == [];
    }
  }

  /** With one visibility order matters only in ties: the survivor is the first
      symbol of the top rank, and a report is made exactly when two strong
      definitions outside common and bss differ. */
  lemma ResolutionByRank(s: seq<Attr>, o: Other, cfg: Config)
    requires s != [] && forall a :: a in s ==> Ordinary(a, o)
    ensures exists k: nat :: FirstOfTopRank(s, k, cfg) && Rank(Fold(s[0], s[1..], cfg).attr, cfg) == Rank(s[k], cfg)
              && (Rank(s[k], cfg) > 0 ==> Fold(s[0], s[1..], cfg).attr == s[k])
    ensures Fold(s[0], s[1..], cfg).clashes > 0 <==> !cfg.dynsym && TwoStrongDiffer(s, cfg)
  {
    ResolutionExactly(s, cfg);
    SharedOther(s, o);
    hide Fold;
    var k: nat :| Keeps(s, k, cfg) && Fold(s[0], s[1..], cfg).attr == Survivor(s, k);
    assert Ordinary(s[k], o);
    SharedKeeper(s, k, o, cfg);
    SharedReport(s, o, cfg);
  }

  lemma SharedKeeper(s: seq<Attr>, k: nat, o: Other, cfg: Config)
    requires s != [] && (forall a :: a in s ==> Ordinary(a, o)) && OtherOf(s) == o && Keeps(s, k, cfg)
    ensures Survivor(s, k) == s[k]
    ensures exists j: nat :: FirstOfTopRank(s, j, cfg) && Rank(s[k], cfg) == Rank(s[j], cfg) && (Rank(s[j], cfg) > 0 ==> s[k] == s[j])
  {
    assert forall i :: 0 <= i < |s| ==> Ordinary(s[i], o);
    SharedTaking(s, o, cfg);
    hide Taking, CommonOrBss;
    if Rank(s[k], cfg) == 0 {
      assert FirstOfTopRank(s, 0, cfg);
    } else {
      assert FirstOfTopRank(s, k, cfg);
    }
  }

  lemma SharedTaking(s: seq<Attr>, o: Other, cfg: Config)
    requires forall a :: a in s ==> Ordinary(a, o)
    ensures forall i: nat :: i < |s| ==> (Taking(s, i, cfg) <==> Rank(s[i], cfg) == 3)
  {
    hide Overrides;
    assert forall i :: 0 <= i < |s| ==> Ordinary(s[i], o);
  }

  lemma SharedReport(s: seq<Attr>, o: Other, cfg: Config)
    requires s != [] && forall a :: a in s ==> Ordinary(a, o)
    ensures (exists j: nat :: ReportedAt(s, j, cfg)) <==> !cfg.dynsym && TwoStrongDiffer(s, cfg)
  {
    hide OtherOf;
    assert forall i :: 0 <= i < |s| ==> Ordinary(s[i], o);
    SharedTaking(s, o, cfg);
    hide Taking, CommonOrBss;
    forall j | 0 < j <= |s| ensures OtherOf(s[..j]) == o {
      SharedOther(s[..j], o);
    }
    if !cfg.dynsym && TwoStrongDiffer(s, cfg) {
      var i, j :| 0 <= i < |s| && 0 <= j < |s| && Rank(s[i], cfg) == 3 && Rank(s[j], cfg) == 3 && s[i] != s[j];
      var k := FirstStrong(s, i, cfg);
      var l := if s[i] == s[k] then j else i;
      assert k < l by {
        assert s[l] != s[k];
      }
      assert ReportedAt(s, l, cfg);
    }
  }

  lemma {:induction false} FirstStrong(s: seq<Attr>, i: nat, cfg: Config) returns (k: nat)
    requires i < |s| && Rank(s[i], cfg) == 3
    ensures k <= i && Rank(s[k], cfg) == 3 && forall j :: 0 <= j < k ==> Rank(s[j], cfg) != 3
  {
    if j: nat :| j < i && Rank(s[j], cfg) == 3 {
      k := FirstStrong(s, j, cfg);
    } else {
      k := i;
    }
  }

  /** With mixed visibilities the report is order dependent: after a hidden weak
      symbol the very same strong definition, given twice, clashes with itself. */
  lemma SameDefinitionTwiceCanClash(cfg: Config)
    requires !cfg.dynsym && cfg.bss != 1
    ensures var weak := Attr(8, 4, STB_WEAK, 1, Other(STV_HIDDEN, false, 0), 1);
            var strong := Attr(0, 4, STB_GLOBAL, 1, Other(STV_DEFAULT, false, 0), 1);
            Fold(weak, [strong, strong], cfg).clashes == 1 && Fold(strong, [strong, weak], cfg).clashes == 0
  {
    var weak := Attr(8, 4, STB_WEAK, 1, Other(STV_HIDDEN, false, 0), 1);
    var strong := Attr(0, 4, STB_GLOBAL, 1, Other(STV_DEFAULT, false, 0), 1);
    assert [strong, strong][..1] == [strong] && [strong][..0] == [] && [strong, weak][..1] == [strong];
    assert Fold(weak, [], cfg) == Folded(weak, 0) && Fold(strong, [], cfg) == Folded(strong, 0);
    assert Fold(weak, [strong], cfg).clashes == 0 && Fold(weak, [strong], cfg).attr != strong;
    assert Fold(strong, [strong], cfg) == Folded(strong, 0);
  }

  /** Sections of their own and reserved ones differ: an absolute symbol does not take the
      place of a common one of its name, it clashes with it. */
  lemma AbsoluteAfterCommonClashes(cfg: Config)
    requires !cfg.dynsym && cfg.bss != SHN_ABS
    ensures var common := Attr(8, 8, STB_GLOBAL, 1, Other(STV_DEFAULT, false, 0), SHN_COMMON);
            var absolute := Attr(3, 0, STB_GLOBAL, 0, Other(STV_DEFAULT, false, 0), SHN_ABS);
            Fold(common, [absolute], cfg) == Folded(common, 1) && Fold(absolute, [common], cfg) == Folded(absolute, 0)
  {
    var common := Attr(8, 8, STB_GLOBAL, 1, Other(STV_DEFAULT, false, 0), SHN_COMMON);
    var absolute := Attr(3, 0, STB_GLOBAL, 0, Other(STV_DEFAULT, false, 0), SHN_ABS);
    assert [absolute][..0] == [] && [common][..0] == [];
    assert Fold(common, [], cfg) == Folded(common, 0) && Fold(absolute, [], cfg) == Folded(absolute, 0);
  }

  // ---- adding symbols to a table -----------------------------------------

  datatype Added = Added(tab: seq<Entry>, index: nat, clash: bool)

  /** set_elf_sym on values. */
  function Add(tab: seq<Entry>, e: Entry, cfg: Config): (r: Added)
    requires |tab| > 0
    ensures |tab| <= |r.tab| && 0 < r.index < |r.tab|
  {
    var k := if Global(e.attr) then Latest(tab, e.name, |tab|) else 0;
    if k == 0 then Added(tab + [e], |tab|, false)
    else Added(tab[k := tab[k].(attr := Resolve(tab[k].attr, e.attr, cfg))], k, Clashes(tab[k].attr, e.attr, cfg))
  }

  /** An undefined symbol of the file just compiled becomes global, and loses its
      type when a non-PE object file is written. */
  function Exported(e: Entry, elfObject: bool): Entry {
    if Defined(e.attr) then e
    else
      var b := if e.attr.bind == STB_LOCAL then STB_GLOBAL else e.attr.bind;
      e.(attr := e.attr.(bind := b, typ := if b == STB_GLOBAL && elfObject then STT_NOTYPE else e.attr.typ))
  }

  datatype Merged = Merged(tab: seq<Entry>, tr: seq<nat>, clashes: nat)

  /** The symbols of a file added in order to the table before it; `tr` says where each went. */
  function Merge(tab: seq<Entry>, file: seq<Entry>, elfObject: bool, cfg: Config): (m: Merged)
    requires |tab| > 0
    ensures |m.tr| == |file| && |tab| <= |m.tab| <= |tab| + |file|
  {
    if file == [] then Merged(tab, [], 0)
    else
      var m := Merge(tab, file[..|file| - 1], elfObject, cfg);
      var r := Add(m.tab, Exported(file[|file| - 1], elfObject), cfg);
      Merged(r.tab, m.tr + [r.index], m.clashes + if r.clash then 1 else 0)
  }

  lemma MergeNone(tab: seq<Entry>, file: seq<Entry>, elfObject: bool, cfg: Config)
    requires |tab| > 0
    ensures Merge(tab, file[..0], elfObject, cfg) == Merged(tab, [], 0)
  {}

  lemma MergeSnoc(tab: seq<Entry>, file: seq<Entry>, i: nat, elfObject: bool, cfg: Config)
    requires |tab| > 0 && i < |file|
    ensures var m := Merge(tab, file[..i], elfObject, cfg);
            var r := Add(m.tab, Exported(file[i], elfObject), cfg);
            Merge(tab, file[..i + 1], elfObject, cfg) == Merged(r.tab, m.tr + [r.index], m.clashes + if r.clash then 1 else 0)
  {
    assert file[..i + 1][..i] == file[..i];
  }

  /** What a reference to `was` may become: same name, and the very same symbol
      when it is a definition local to its file. */
  ghost predicate SameReferent(was: Entry, now: Entry) {
    && now.name == was.name
    && (Defined(was.attr) && !Global(was.attr) ==> now.attr == was.attr)
    && (Defined(was.attr) ==> Defined(now.attr))
    && (!Defined(was.attr) || Global(was.attr) ==> Global(now.attr))
  }

  /** One addition: every other entry is untouched, and the entry written keeps
      its name and can stand for both the symbol added and the one it was. */
  lemma AddEffect(tab: seq<Entry>, e: Entry, cfg: Config)
    requires |tab| > 0
    ensures var r := Add(tab, e, cfg);
            && (forall k :: 0 <= k < |tab| && k != r.index ==> r.tab[k] == tab[k])
            && r.tab[r.index].name == e.name
            && (Defined(e.attr) ==> Defined(r.tab[r.index].attr))
            && (if Global(e.attr) then Global(r.tab[r.index].attr) else r.index == |tab| && r.tab[r.index] == e)
            && (r.index < |tab| ==> Global(tab[r.index].attr) && tab[r.index].name == e.name
                                    && (Defined(tab[r.index].attr) ==> Defined(r.tab[r.index].attr)))
  {}

  /** What an earlier entry may become. */
  ghost predicate KeptInPlace(was: Entry, now: Entry) {
    && now.name == was.name
    && (if Global(was.attr) then Global(now.attr) else now == was)
    && (Defined(was.attr) ==> Defined(now.attr))
  }

  /** Every earlier entry is kept, and the symbol added has its successor. */
  lemma AddKeepsReferents(tab: seq<Entry>, was: Entry, elfObject: bool, cfg: Config)
    requires |tab| > 0
    ensures var r := Add(tab, Exported(was, elfObject), cfg);
            SameReferent(was, r.tab[r.index]) && forall k :: 0 <= k < |tab| ==> KeptInPlace(tab[k], r.tab[k])
  {
    AddEffect(tab, Exported(was, elfObject), cfg);
    hide Add;
  }

  lemma KeptAgain(was: Entry, mid: Entry, now: Entry)
    requires KeptInPlace(mid, now)
    ensures SameReferent(was, mid) ==> SameReferent(was, now)
    ensures KeptInPlace(was, mid) ==> KeptInPlace(was, now)
  {}

  lemma {:induction false} MergeKeepsReferents(tab: seq<Entry>, file: seq<Entry>, elfObject: bool, cfg: Config)
    requires |tab| > 0
    ensures var m := Merge(tab, file, elfObject, cfg);
            && (forall i :: 0 <= i < |file| ==> 0 < m.tr[i] < |m.tab| && SameReferent(file[i], m.tab[m.tr[i]]))
            && (forall k :: 0 <= k < |tab| ==> KeptInPlace(tab[k], m.tab[k]))
  {
    if file != [] {
      hide Add, Exported, SameReferent, KeptInPlace;
      var n := |file| - 1;
      MergeKeepsReferents(tab, file[..n], elfObject, cfg);
      var m0, m := Merge(tab, file[..n], elfObject, cfg), Merge(tab, file, elfObject, cfg);
      AddKeepsReferents(m0.tab, file[n], elfObject, cfg);
      forall i | 0 <= i < |file|
        ensures 0 < m.tr[i] < |m.tab| && SameReferent(file[i], m.tab[m.tr[i]])
      {
        if i < n {
          KeptAgain(file[i], m0.tab[m0.tr[i]], m.tab[m0.tr[i]]);
        }
      }
      forall k | 0 <= k < |tab| ensures KeptInPlace(tab[k], m.tab[k]) {
        KeptAgain(tab[k], m0.tab[k], m.tab[k]);
      }
    } else {
      assert forall k :: 0 <= k < |tab| ==> KeptInPlace(tab[k], tab[k]);
    }
  }

  /** The symbols of `file` that take part in resolving `name`. */
  function Mentions(file: seq<Entry>, name: string, elfObject: bool): seq<Attr> {
    if file == [] then []
    else
      var e := Exported(file[|file| - 1], elfObject);
      Mentions(file[..|file| - 1], name, elfObject) + if Global(e.attr) && e.name == name then [e.attr] else []
  }

  /** One addition, seen from one name. */
  lemma AddSeenFromName(tab: seq<Entry>, e: Entry, name: string, cfg: Config)
    requires |tab| > 0
    ensures var r := Add(tab, e, cfg);
            var k0, k := Latest(tab, name, |tab|), Latest(r.tab, name, |r.tab|);
            if Global(e.attr) && e.name == name then
              k != 0 && (k0 != 0 ==> k == k0) && r.tab[k].attr == (if k0 == 0 then e.attr else Resolve(tab[k0].attr, e.attr, cfg))
            else k == k0 && (k != 0 ==> r.tab[k] == tab[k])
  {
    var r := Add(tab, e, cfg);
    AddEffect(tab, e, cfg);
    LatestIgnoresOthers(tab, r.tab, name, |tab|);
  }

  lemma LatestIgnoresOthers(a: seq<Entry>, b: seq<Entry>, name: string, limit: nat)
    requires limit <= |a| && limit <= |b|
    requires forall i :: 0 < i < limit ==> ((Global(a[i].attr) && a[i].name == name) <==> (Global(b[i].attr) && b[i].name == name))
    ensures Latest(a, name, limit) == Latest(b, name, limit)
  {}

  /** In `now`, grown from `was`, `name` stands for the fold of the symbols `s`. */
  ghost predicate Means(was: seq<Entry>, now: seq<Entry>, name: string, s: seq<Attr>, cfg: Config) {
    var k0, k := Latest(was, name, |was|), Latest(now, name, |now|);
    if k0 != 0 then k == k0 && now[k].attr == Fold(was[k0].attr, s, cfg).attr
    else if s == [] then k == 0
    else k != 0 && now[k].attr == Fold(s[0], s[1..], cfg).attr
  }

  lemma MeansStep(was: seq<Entry>, now: seq<Entry>, name: string, s: seq<Attr>, e: Entry, cfg: Config)
    requires |now| > 0 && Means(was, now, name, s, cfg)
    ensures Means(was, Add(now, e, cfg).tab, name,
                  s + if Global(e.attr) && e.name == name then [e.attr] else [], cfg)
  {
    AddSeenFromName(now, e, name, cfg);
    if Global(e.attr) && e.name == name {
      FoldSnoc(s, e.attr);
    } else {
      assert s + [] == s;
    }
  }

  lemma FoldSnoc(s: seq<Attr>, a: Attr)
    ensures (s + [a])[..|s|] == s && (s != [] ==> (s + [a])[1..] == s[1..] + [a] && (s[1..] + [a])[..|s| - 1] == s[1..])
  {}

  /** Names do not interfere: what a name means after the merge is the fold of
      its own symbols, whatever else the file contains. */
  lemma {:induction false} MergeResolvesEachName(tab: seq<Entry>, file: seq<Entry>, name: string, elfObject: bool, cfg: Config)
    requires |tab| > 0
    ensures Means(tab, Merge(tab, file, elfObject, cfg).tab, name, Mentions(file, name, elfObject), cfg)
  {
    if file != [] {
      var init := file[..|file| - 1];
      MergeResolvesEachName(tab, init, name, elfObject, cfg);
      MeansStep(tab, Merge(tab, init, elfObject, cfg).tab, name, Mentions(init, name, elfObject),
                Exported(file[|file| - 1], elfObject), cfg);
    }
  }

  // ---- what is reported ----------------------------------------------------------

  /** One addition is reported exactly when the name stands for a symbol already and
      folding the new one onto it clashes. */
  lemma AddReports(tab: seq<Entry>, e: Entry, cfg: Config)
    requires |tab| > 0
    ensures var k := Latest(tab, e.name, |tab|);
            Add(tab, e, cfg).clash <==> Global(e.attr) && k != 0 && Fold(tab[k].attr, [e.attr], cfg).clashes > 0
  {
    assert [e.attr][..0] == [];
  }

  /** The symbols of one name in the order they came: the one that the table held, and
      those of the file. */
  function Told(tab: seq<Entry>, file: seq<Entry>, name: string, elfObject: bool): seq<Attr> {
    var k := Latest(tab, name, |tab|);
    (if k != 0 then [tab[k].attr] else []) + Mentions(file, name, elfObject)
  }

  /** What they come to. */
  function Story(s: seq<Attr>, cfg: Config): Folded
    requires s != []
  {
    Fold(s[0], s[1..], cfg)
  }

  lemma ToldMeans(tab: seq<Entry>, file: seq<Entry>, name: string, elfObject: bool, cfg: Config)
    requires |tab| > 0
    ensures var now, s := Merge(tab, file, elfObject, cfg).tab, Told(tab, file, name, elfObject);
            var k := Latest(now, name, |now|);
            if s == [] then k == 0 else k != 0 && now[k].attr == Story(s, cfg).attr
  {
    hide Merge, Fold, Mentions;
    MergeResolvesEachName(tab, file, name, elfObject, cfg);
    var s, k := Mentions(file, name, elfObject), Latest(tab, name, |tab|);
    assert k != 0 ==> ([tab[k].attr] + s)[1..] == s;
    assert k == 0 ==> [] + s == s;
  }

  lemma StorySnoc(s: seq<Attr>, a: Attr, cfg: Config)
    requires s != []
    ensures Story(s + [a], cfg).clashes == Story(s, cfg).clashes + if Fold(Story(s, cfg).attr, [a], cfg).clashes > 0 then 1 else 0
  {
    FoldSnoc(s, a);
    assert [a][..0] == [];
    assert Fold(Story(s, cfg).attr, [], cfg) == Folded(Story(s, cfg).attr, 0);
  }

  /** How a name's story goes on with one more symbol of the file. */
  lemma ToldStep(tab: seq<Entry>, file: seq<Entry>, name: string, elfObject: bool)
    requires file != []
    ensures var e, init := Exported(file[|file| - 1], elfObject), Told(tab, file[..|file| - 1], name, elfObject);
            Told(tab, file, name, elfObject) == init + if Global(e.attr) && e.name == name then [e.attr] else []
  {}

  ghost predicate Reported(tab: seq<Entry>, file: seq<Entry>, name: string, elfObject: bool, cfg: Config) {
    var s := Told(tab, file, name, elfObject);
    s != [] && Story(s, cfg).clashes > 0
  }

  /** One more symbol: its own name may be reported now, the others as before. */
  lemma ReportedStep(tab: seq<Entry>, file: seq<Entry>, name: string, elfObject: bool, cfg: Config)
    requires |tab| > 0 && file != []
    ensures var init, e := file[..|file| - 1], Exported(file[|file| - 1], elfObject);
            Reported(tab, file, name, elfObject, cfg) <==>
            Reported(tab, init, name, elfObject, cfg)
            || (Global(e.attr) && e.name == name && Add(Merge(tab, init, elfObject, cfg).tab, e, cfg).clash)
  {
    hide Merge, Add, Exported, Told, Story, Mentions, Latest, Fold;
    var init, e := file[..|file| - 1], Exported(file[|file| - 1], elfObject);
    var s, now := Told(tab, init, name, elfObject), Merge(tab, init, elfObject, cfg).tab;
    ToldStep(tab, file, name, elfObject);
    ToldMeans(tab, init, name, elfObject, cfg);
    if Global(e.attr) && e.name == name {
      AddReports(now, e, cfg);
      if s != [] {
        StorySnoc(s, e.attr, cfg);
      } else {
        OneIsQuiet(e.attr, cfg);
        assert s + [e.attr] == [e.attr];
      }
    } else {
      assert s + [] == s;
    }
  }

  lemma OneIsQuiet(a: Attr, cfg: Config)
    ensures Story([a], cfg) == Folded(a, 0)
  {}

  /** A merge reports something exactly when the symbols of some name clash. */
  lemma {:induction false} MergeReports(tab: seq<Entry>, file: seq<Entry>, elfObject: bool, cfg: Config)
    requires |tab| > 0
    ensures Merge(tab, file, elfObject, cfg).clashes > 0 <==> exists name :: Reported(tab, file, name, elfObject, cfg)
  {
    if file == [] {
      forall name ensures !Reported(tab, file, name, elfObject, cfg) {
        var k := Latest(tab, name, |tab|);
        if k != 0 {
          assert Told(tab, file, name, elfObject) == [tab[k].attr];
          OneIsQuiet(tab[k].attr, cfg);
        }
      }
    } else {
      hide Add, Exported, Reported;
      var init, e := file[..|file| - 1], Exported(file[|file| - 1], elfObject);
      MergeReports(tab, init, elfObject, cfg);
      AddReports(Merge(tab, init, elfObject, cfg).tab, e, cfg);
      forall name ensures Reported(tab, file, name, elfObject, cfg) <==>
          Reported(tab, init, name, elfObject, cfg)
          || (Global(e.attr) && e.name == name && Add(Merge(tab, init, elfObject, cfg).tab, e, cfg).clash) {
        ReportedStep(tab, file, name, elfObject, cfg);
      }
      if Add(Merge(tab, init, elfObject, cfg).tab, e, cfg).clash {
        assert Reported(tab, file, e.name, elfObject, cfg);
      }
      if name :| Reported(tab, init, name, elfObject, cfg) {
        assert Reported(tab, file, name, elfObject, cfg);
      }
    }
  }

  ghost predicate AllLinkable(tab: seq<Entry>) {
    forall e :: e in tab ==> e.attr.bind == STB_LOCAL || e.attr.bind == STB_GLOBAL || e.attr.bind == STB_WEAK
  }

  lemma {:induction false} ToldLinkable(tab: seq<Entry>, file: seq<Entry>, name: string, elfObject: bool)
    requires AllLinkable(tab) && AllLinkable(file)
    ensures forall a :: a in Told(tab, file, name, elfObject) ==> Linkable(a)
  {
    hide Latest;
    if file != [] {
      ToldLinkable(tab, file[..|file| - 1], name, elfObject);
      ToldStep(tab, file, name, elfObject);
      assert file[|file| - 1] in file;
    } else {
      var k := Latest(tab, name, |tab|);
      assert k != 0 ==> tab[k] in tab;
    }
  }

  /** "defined twice" at the end of a file, told from the symbols alone: some visible
      strong definition of some name is reported among all symbols of that name. */
  lemma MergeReportsExactly(tab: seq<Entry>, file: seq<Entry>, elfObject: bool, cfg: Config)
    requires |tab| > 0 && AllLinkable(tab) && AllLinkable(file)
    ensures Merge(tab, file, elfObject, cfg).clashes > 0 <==>
            exists name: string, j: nat :: ReportedAt(Told(tab, file, name, elfObject), j, cfg)
  {
    hide Merge, Told, ReportedAt, AllLinkable;
    MergeReports(tab, file, elfObject, cfg);
    forall name ensures Reported(tab, file, name, elfObject, cfg) <==> exists j: nat :: ReportedAt(Told(tab, file, name, elfObject), j, cfg) {
      var s := Told(tab, file, name, elfObject);
      ToldLinkable(tab, file, name, elfObject);
      ReportBound(s, cfg);
      if s != [] {
        ResolutionExactly(s, cfg);
      }
    }
  }

  /** The end-of-file rewrite: a local binding becomes global, a weak one stays; the type
      goes with a global binding in an object file; nothing else changes. */
  lemma ExportedKeeps(e: Entry, elfObject: bool)
    ensures var r := Exported(e, elfObject);
            && r.name == e.name
            && (e.attr.shndx != SHN_UNDEF ==> r == e)
            && r.attr == e.attr.(bind := r.attr.bind, typ := r.attr.typ)
            && (e.attr.shndx == SHN_UNDEF && e.attr.bind == STB_LOCAL ==> r.attr.bind == STB_GLOBAL)
            && (e.attr.bind != STB_LOCAL ==> r.attr.bind == e.attr.bind)
            && (e.attr.shndx == SHN_UNDEF && elfObject && e.attr.bind <= STB_GLOBAL ==> r.attr.typ == STT_NOTYPE)
            && (!elfObject || e.attr.bind > STB_GLOBAL ==> r.attr.typ == e.attr.typ)
  {}

  /** Two symbols of one name and one visible st_other, told from their sections alone. */
  lemma TwoSymbols(e: Attr, n: Attr, cfg: Config)
    requires e != n && e.other == n.other && !e.other.asmSet && e.other.vis == STV_DEFAULT
    requires e.bind in {STB_GLOBAL, STB_WEAK} && n.bind in {STB_GLOBAL, STB_WEAK}
    ensures var common := e.shndx == SHN_COMMON || e.shndx == cfg.bss;
            Fold(e, [n], cfg) ==
            if e.shndx == SHN_UNDEF then Folded(n, 0)
            else if n.shndx == SHN_UNDEF || n.bind == STB_WEAK then Folded(e, 0)
            else if e.bind == STB_WEAK then Folded(n, 0)
            else if common && n.shndx < SHN_LORESERVE && n.shndx != cfg.bss then Folded(n, 0)
            else if n.shndx == SHN_COMMON || n.shndx == cfg.bss || cfg.dynsym then Folded(e, 0)
            else Folded(e, 1)
  {
    assert [n][..0] == [];
    assert Fold(e, [], cfg) == Folded(e, 0);
  }
}
